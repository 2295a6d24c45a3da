/**
 * The Solver object: the cell order the rules visit, and the top-level solves (from scratch,
 * and by guessing until the board is complete).
 */
module SolverModel {
  import opened Outcomes
  import opened Enums
  import opened BoardTools
  import opened BoardModel
  import opened SetBorder
  import opened ContUnset
  import opened Rules
  import opened SolveStatsModel
  import CellGroup
  import LoopRule
  import Initial
  import Solve
  import Guess

  // ---------------------------------------------------------------------------------------
  // initializePrioritizedCellList
  // ---------------------------------------------------------------------------------------

  datatype Priority = High | Medium | Low {
    function Level(): int
    {
      match this
      case High => 0
      case Medium => 1
      case Low => 2
    }
  }

  /** 1- and 3-cells come first, then 2-cells, then cells without a clue or with 0; other clues are dropped. */
  function PriorityOf(clue: Option<int>): (p: Option<Priority>)
    ensures p.Some? <==> clue.None? || (clue.Some? && 0 <= clue.value <= 3)
    ensures p == Some(High) <==> clue == Some(1) || clue == Some(3)
    ensures p == Some(Medium) <==> clue == Some(2)
  {
    match clue
    case None => Some(Low)
    case Some(n) =>
      if n == 1 || n == 3 then Some(High)
      else if n == 2 then Some(Medium)
      else if n == 0 then Some(Low)
      else None
  }

  /** a comes before b in row-major order. */
  predicate Before(a: Cell, b: Cell)
  {
    a.0 < b.0 || (a.0 == b.0 && a.1 < b.1)
  }

  ghost predicate RowMajor(s: seq<Cell>)
  {
    forall i, j | 0 <= i < j < |s| :: Before(s[i], s[j])
  }

  /** A cell of the grid whose clue has priority p. */
  ghost predicate HasPriority(cells: seq<seq<Option<int>>>, x: Cell, p: Priority)
  {
    0 <= x.0 < |cells| && 0 <= x.1 < |cells[x.0]| && PriorityOf(cells[x.0][x.1]) == Some(p)
  }

  /** The cells of priority p among the first n of row r, left to right. */
  function RankedRow(cells: seq<seq<Option<int>>>, r: int, n: nat, p: Priority): seq<Cell>
    requires 0 <= r < |cells| && n <= |cells[r]|
  {
    if n == 0 then []
    else RankedRow(cells, r, n - 1, p) + (if PriorityOf(cells[r][n - 1]) == Some(p) then [(r, n - 1)] else [])
  }

  /** RankedRow holds exactly the cells of priority p among the first n of row r, left to right. */
  lemma {:induction false} RankedRowMeaning(cells: seq<seq<Option<int>>>, r: int, n: nat, p: Priority)
    requires 0 <= r < |cells| && n <= |cells[r]|
    ensures forall x :: x in RankedRow(cells, r, n, p) <==> x.0 == r && x.1 < n && HasPriority(cells, x, p)
    ensures RowMajor(RankedRow(cells, r, n, p))
  {
    if n > 0 {
      RankedRowMeaning(cells, r, n - 1, p);
      var rest := RankedRow(cells, r, n - 1, p);
      forall i | 0 <= i < |rest| ensures rest[i].1 < n - 1 {
        assert rest[i] in rest;
      }
    }
  }

  /** The cells of priority p in the first n rows, in row-major order. */
  function Ranked(cells: seq<seq<Option<int>>>, n: nat, p: Priority): seq<Cell>
    requires n <= |cells|
  {
    if n == 0 then []
    else Ranked(cells, n - 1, p) + RankedRow(cells, n - 1, |cells[n - 1]|, p)
  }

  /** Ranked holds exactly the cells of priority p in the first n rows, in row-major order. */
  lemma {:induction false} RankedMeaning(cells: seq<seq<Option<int>>>, n: nat, p: Priority)
    requires n <= |cells|
    ensures forall x :: x in Ranked(cells, n, p) <==> x.0 < n && HasPriority(cells, x, p)
    ensures RowMajor(Ranked(cells, n, p))
  {
    if n > 0 {
      RankedMeaning(cells, n - 1, p);
      RankedRowMeaning(cells, n - 1, |cells[n - 1]|, p);
      var rest := Ranked(cells, n - 1, p);
      var row := RankedRow(cells, n - 1, |cells[n - 1]|, p);
      forall i | 0 <= i < |rest| ensures rest[i].0 < n - 1 {
        assert rest[i] in rest;
      }
      forall i | 0 <= i < |row| ensures row[i].0 == n - 1 {
        assert row[i] in row;
      }
    }
  }

  /** prioCells as initializePrioritizedCellList leaves it. */
  function PrioOrder(cells: seq<seq<Option<int>>>): seq<Cell>
  {
    Ranked(cells, |cells|, High) + Ranked(cells, |cells|, Medium) + Ranked(cells, |cells|, Low)
  }

  /** The 3-cells among the first n cells of row r. */
  function ThreesInRow(cells: seq<seq<Option<int>>>, r: int, n: nat): (s: set<Cell>)
    requires 0 <= r < |cells| && n <= |cells[r]|
    ensures forall x :: x in s <==> x.0 == r && 0 <= x.1 < n && cells[r][x.1] == Some(3)
  {
    if n == 0 then {}
    else ThreesInRow(cells, r, n - 1) + (if cells[r][n - 1] == Some(3) then {(r, n - 1)} else {})
  }

  /** The 3-cells in the first n rows. */
  function Threes(cells: seq<seq<Option<int>>>, n: nat): (s: set<Cell>)
    requires n <= |cells|
    ensures forall x :: x in s <==> 0 <= x.0 < n && 0 <= x.1 < |cells[x.0]| && cells[x.0][x.1] == Some(3)
  {
    if n == 0 then {}
    else Threes(cells, n - 1) + ThreesInRow(cells, n - 1, |cells[n - 1]|)
  }

  /** The cells whose clue is 3. */
  function ThreeCells(cells: seq<seq<Option<int>>>): set<Cell>
  {
    Threes(cells, |cells|)
  }

  /** The part of the cell order that position k falls in. */
  function PartAt(cells: seq<seq<Option<int>>>, k: int): Priority
  {
    var nh, nm := |Ranked(cells, |cells|, High)|, |Ranked(cells, |cells|, Medium)|;
    if k < nh then High else if k < nh + nm then Medium else Low
  }

  /** Position k holds a cell of the grid from the part it falls in, and later positions of that part hold later cells. */
  lemma PrioAt(cells: seq<seq<Option<int>>>, k: int)
    requires 0 <= k < |PrioOrder(cells)|
    ensures HasPriority(cells, PrioOrder(cells)[k], PartAt(cells, k))
    ensures forall j | k < j < |PrioOrder(cells)| && PartAt(cells, j) == PartAt(cells, k) ::
              Before(PrioOrder(cells)[k], PrioOrder(cells)[j])
  {
    var h, m, l := Ranked(cells, |cells|, High), Ranked(cells, |cells|, Medium), Ranked(cells, |cells|, Low);
    var s := PrioOrder(cells);
    if k < |h| {
      RankedMeaning(cells, |cells|, High);
      assert s[k] == h[k] && h[k] in h;
      forall j | k < j < |s| && PartAt(cells, j) == High ensures Before(s[k], s[j]) {
        assert s[j] == h[j];
      }
    } else if k < |h| + |m| {
      RankedMeaning(cells, |cells|, Medium);
      assert s[k] == m[k - |h|] && m[k - |h|] in m;
      forall j | k < j < |s| && PartAt(cells, j) == Medium ensures Before(s[k], s[j]) {
        assert s[j] == m[j - |h|];
      }
    } else {
      RankedMeaning(cells, |cells|, Low);
      assert s[k] == l[k - |h| - |m|] && l[k - |h| - |m|] in l;
      forall j | k < j < |s| && PartAt(cells, j) == Low ensures Before(s[k], s[j]) {
        assert s[j] == l[j - |h| - |m|];
      }
    }
  }

  /** The cell order holds exactly the grid cells whose clue is absent or 0 to 3. */
  lemma PrioOrderMembers(cells: seq<seq<Option<int>>>)
    ensures forall x :: x in PrioOrder(cells) <==>
              0 <= x.0 < |cells| && 0 <= x.1 < |cells[x.0]| && PriorityOf(cells[x.0][x.1]).Some?
  {
    RankedMeaning(cells, |cells|, High);
    RankedMeaning(cells, |cells|, Medium);
    RankedMeaning(cells, |cells|, Low);
    forall x
      ensures x in PrioOrder(cells) <==> 0 <= x.0 < |cells| && 0 <= x.1 < |cells[x.0]| && PriorityOf(cells[x.0][x.1]).Some?
    {
      if 0 <= x.0 < |cells| && 0 <= x.1 < |cells[x.0]| && PriorityOf(cells[x.0][x.1]).Some? {
        var p := PriorityOf(cells[x.0][x.1]).value;
        assert HasPriority(cells, x, p);
      }
    }
  }

  /**
   * The cell order lists the 1- and 3-cells, then the 2-cells, then the cells without a clue
   * or with 0, each group in row-major order; so no cell appears twice.
   */
  lemma PrioOrderOrdered(cells: seq<seq<Option<int>>>, i: int, j: int)
    requires 0 <= i < j < |PrioOrder(cells)|
    ensures var a, b := PrioOrder(cells)[i], PrioOrder(cells)[j];
            && 0 <= a.0 < |cells| && 0 <= a.1 < |cells[a.0]| && 0 <= b.0 < |cells| && 0 <= b.1 < |cells[b.0]|
            && PriorityOf(cells[a.0][a.1]).Some? && PriorityOf(cells[b.0][b.1]).Some?
            && var la, lb := PriorityOf(cells[a.0][a.1]).value.Level(), PriorityOf(cells[b.0][b.1]).value.Level();
               la < lb || (la == lb && Before(a, b))
  {
    PrioAt(cells, i);
    PrioAt(cells, j);
  }

  /** When every clue is absent or 0 to 3, every grid cell is in the cell order. */
  lemma PrioOrderCoversAll(cells: seq<seq<Option<int>>>)
    requires forall i, j | 0 <= i < |cells| && 0 <= j < |cells[i]| :: cells[i][j].None? || 0 <= cells[i][j].value <= 3
    ensures forall i, j | 0 <= i < |cells| && 0 <= j < |cells[i]| :: (i, j) in PrioOrder(cells)
  {
    PrioOrderMembers(cells);
  }

  /** The three lists after one row of initializePrioritizedCellList, and the 3-cells found in it. */
  method PrioRow(cells: seq<seq<Option<int>>>, row: int, high: seq<Cell>, med: seq<Cell>, low: seq<Cell>, threes: set<Cell>)
    returns (high': seq<Cell>, med': seq<Cell>, low': seq<Cell>, threes': set<Cell>)
    requires 0 <= row < |cells|
    ensures high' == high + RankedRow(cells, row, |cells[row]|, High)
    ensures med' == med + RankedRow(cells, row, |cells[row]|, Medium)
    ensures low' == low + RankedRow(cells, row, |cells[row]|, Low)
    ensures threes' == threes + ThreesInRow(cells, row, |cells[row]|)
  {
    high', med', low', threes' := high, med, low, threes;
    for col := 0 to |cells[row]|
      invariant high' == high + RankedRow(cells, row, col, High)
      invariant med' == med + RankedRow(cells, row, col, Medium)
      invariant low' == low + RankedRow(cells, row, col, Low)
      invariant threes' == threes + ThreesInRow(cells, row, col)
    {
      var reqNum := cells[row][col];
      if reqNum == Some(1) {
        high' := high' + [(row, col)];
      } else if reqNum == Some(2) {
        med' := med' + [(row, col)];
      } else if reqNum == Some(3) {
        high' := high' + [(row, col)];
        threes' := threes' + {(row, col)};
      } else if reqNum.None? || reqNum == Some(0) {
        low' := low' + [(row, col)];
      }
    }
  }

  // ---------------------------------------------------------------------------------------
  // The Solver
  // ---------------------------------------------------------------------------------------

  const InitialInvalid := "The initial solve unexpectedly resulted in an invalid board."
  const InitialCompleteInvalid := "The initial solve completed the board but was invalid."
  const NoCorrectGuess := "Could not find a correct guess."
  const GuessInvalid := "The supposedly correct guess unexpectedly resulted in an invalid board."

  /** invalidInitialSolve: record a failed initial solve, with a message for whether it completed the board. */
  method InvalidInitialSolve(isComplete: bool, stats: SolveStats)
    modifies stats`solved, stats`err
    ensures !stats.solved
    ensures stats.err == Some(if isComplete then InitialCompleteInvalid else InitialInvalid)
  {
    stats.solved := false;
    if !isComplete {
      stats.err := Some(InitialInvalid);
    } else {
      stats.err := Some(InitialCompleteInvalid);
    }
  }

  /** The indices of the UNSET borders. */
  method UnsetBorders(board: Board) returns (unset: set<int>)
    ensures unset == LoopRule.IndicesWith(board.borders[..], UNSET)
  {
    unset := {};
    for bdrIdx := 0 to board.borders.Length
      invariant unset == set i | 0 <= i < bdrIdx && board.borders[i] == UNSET
    {
      if board.borders[bdrIdx] == UNSET {
        unset := unset + {bdrIdx};
      }
    }
  }

  /** The UNSET-border set after a solve step: the members still UNSET on the board. */
  method PruneUnset(board: Board, unset: set<int>) returns (unset': set<int>)
    requires forall b | b in unset :: 0 <= b < board.borders.Length
    ensures unset' == set b | b in unset && board.borders[b] == UNSET
  {
    unset' := unset;
    for bdrIdx := 0 to board.borders.Length
      invariant unset' == set b | b in unset && (bdrIdx <= b || board.borders[b] == UNSET)
    {
      if bdrIdx in unset' && board.borders[bdrIdx] != UNSET {
        unset' := unset' - {bdrIdx};
      }
    }
  }

  /**
   * Pruning the UNSET indices of bs0 against borders that have grown from bs0 leaves exactly
   * the UNSET indices of the new borders.
   */
  lemma PrunedExact(bs0: seq<BorderStatus>, borders: array<BorderStatus>, unset: set<int>)
    requires Grows(bs0, borders[..]) && unset == LoopRule.IndicesWith(bs0, UNSET)
    ensures (set b | b in unset && borders[b] == UNSET) == LoopRule.IndicesWith(borders[..], UNSET)
  {
    forall b | b in LoopRule.IndicesWith(borders[..], UNSET)
      ensures b in unset
    {
      assert borders[..][b] == UNSET;
    }
  }

  /** No index holds UNSET. */
  lemma NoUnsetLeft(bs: seq<BorderStatus>)
    requires LoopRule.IndicesWith(bs, UNSET) == {}
    ensures UNSET !in bs
  {
  }

  /** How one round of guessing ended. */
  datatype Round = NoGuess | Invalid | Progressed

  class Solver {
    const board: Board
    var initialized: bool
    var prioCells: seq<Cell>
    var threeCells: set<Cell>
    /** The rule helpers whose bodies are not part of this model (see Rules, ContUnset, CellGroup, Solve). */
    const outerPoking: CellRule
    const pokingAt: PokingRule
    const smooth: SmoothRule
    const adjRule: CellGroup.AdjGroupsRule
    const cornerRule: Solve.BoardRule

    ghost predicate Valid()
      reads this, board
    {
      && board.WellFormed()
      && forall k | 0 <= k < |prioCells| :: IsValidCellIdx(board.rows, board.cols, prioCells[k].0, prioCells[k].1)
    }

    constructor (board: Board, outerPoking: CellRule, pokingAt: PokingRule, smooth: SmoothRule,
                 adjRule: CellGroup.AdjGroupsRule, cornerRule: Solve.BoardRule)
      requires board.WellFormed()
      ensures Valid() && this.board == board && !initialized
      ensures prioCells == PrioOrder(board.cells) && threeCells == ThreeCells(board.cells)
    {
      this.board := board;
      this.outerPoking, this.pokingAt, this.smooth := outerPoking, pokingAt, smooth;
      this.adjRule, this.cornerRule := adjRule, cornerRule;
      initialized := false;
      prioCells := [];
      threeCells := {};
      new;
      InitializePrioritizedCellList();
    }

    /**
     * initializePrioritizedCellList: the 1- and 3-cells, then the 2-cells, then the cells
     * without a clue or with 0, each in row-major order; the 3-cells are also added to threeCells.
     */
    method InitializePrioritizedCellList()
      requires board.WellFormed()
      modifies this`prioCells, this`threeCells
      ensures Valid()
      ensures prioCells == PrioOrder(board.cells)
      ensures threeCells == old(threeCells) + ThreeCells(board.cells)
    {
      var cells := board.cells;
      var highPrio: seq<Cell> := [];
      var medPrio: seq<Cell> := [];
      var lowPrio: seq<Cell> := [];
      var threes := threeCells;
      for row := 0 to board.rows
        invariant highPrio == Ranked(cells, row, High)
        invariant medPrio == Ranked(cells, row, Medium)
        invariant lowPrio == Ranked(cells, row, Low)
        invariant threes == old(threeCells) + Threes(cells, row)
      {
        highPrio, medPrio, lowPrio, threes := PrioRow(cells, row, highPrio, medPrio, lowPrio, threes);
      }
      threeCells := threes;
      prioCells := highPrio + medPrio + lowPrio;
      PrioOrderMembers(cells);
      forall k | 0 <= k < |prioCells|
        ensures IsValidCellIdx(board.rows, board.cols, prioCells[k].0, prioCells[k].1)
      {
        assert prioCells[k] in prioCells;
      }
    }

    /** The rules _solve is called with. */
    function Rules(): Solve.PassRules
      reads this
    {
      Solve.PassRules(prioCells, outerPoking, pokingAt, smooth, adjRule, cornerRule)
    }

    /**
     * One round of solveBoardByGuessing: a guess, then a solver run. When a guess is
     * committed, the committed borders are the old ones with the opposite of a refuted guess
     * set, and the rest of the round is a run of _solve from them whose validity decides
     * between Progressed and Invalid. That leaves fewer UNSET borders after a Progressed round.
     * Without a committed guess nothing changes.
     */
    method GuessRound(guesser: Guess.Guesser, stats: SolveStats)
      returns (outcome: Round, ghost committed: seq<BorderStatus>, ghost refutation: Guess.Trial,
               ghost trace: seq<Solve.PassRecord>)
      requires Valid() && guesser.Valid() && guesser.board == board
      modifies guesser`currBorderGuessIdx, guesser`borderGuesses, board`cellGroups, board.borders
      modifies stats`totalGuessCount, stats`correctGuessCount
      ensures Valid() && guesser.Valid()
      ensures Grows(old(board.borders[..]), board.borders[..])
      ensures outcome == NoGuess ==> board.borders[..] == old(board.borders[..])
      ensures outcome != NoGuess ==>
                && Guess.Committed(old(board.borders[..]), committed, guesser.borderGuesses, guesser.currBorderGuessIdx)
                && Guess.Refuted(old(guesser.Ctx()), old(board.borders[..]), guesser.borderGuesses,
                                 guesser.currBorderGuessIdx, refutation)
                && Solve.SolveRun(Solve.Setting(board, Rules(), board.isClone, board.pokes), old(board.cellGroups),
                                  committed, trace, outcome == Progressed)
                && board.borders[..] == Solve.After(committed, trace)
      ensures outcome == Progressed ==> CountOf(board.borders[..], UNSET) < CountOf(old(board.borders[..]), UNSET)
    {
      hide Solve.SolveRun, Guess.Refuted, Guess.Guesser.Ctx;
      ghost var before := board.borders[..];
      var foundMove;
      foundMove, refutation := guesser.Guess(stats);
      outcome, committed, trace := NoGuess, board.borders[..], [];
      if foundMove {
        Guess.CommittedFills(before, board.borders[..], guesser.borderGuesses, guesser.currBorderGuessIdx);
        var isValid;
        isValid, trace := SolveGuessed(guesser);
        Solve.GrowsTrans(before, committed, board.borders[..]);
        outcome := if isValid then Progressed else Invalid;
      }
    }

    /**
     * The solver run after a committed guess: a run of _solve from the committed borders,
     * which fills borders and never adds an UNSET one.
     */
    method SolveGuessed(guesser: Guess.Guesser) returns (isValid: bool, ghost trace: seq<Solve.PassRecord>)
      requires Valid() && guesser.Valid() && guesser.board == board
      modifies board`cellGroups, board.borders
      ensures Valid() && guesser.Valid()
      ensures Solve.SolveRun(Solve.Setting(board, Rules(), board.isClone, board.pokes), old(board.cellGroups),
                             old(board.borders[..]), trace, isValid)
      ensures board.borders[..] == Solve.After(old(board.borders[..]), trace)
      ensures Grows(old(board.borders[..]), board.borders[..])
      ensures CountOf(board.borders[..], UNSET) <= CountOf(old(board.borders[..]), UNSET)
    {
      hide Solve.PassOutcome;
      ghost var guessed := board.borders[..];
      isValid, trace := Solve.SolveLoop(board, Rules());
      Solve.RunBound(Solve.Setting(board, Rules(), board.isClone, board.pokes), old(board.cellGroups), guessed, trace);
      Solve.GrowsCount(guessed, board.borders[..]);
    }

    /**
     * One iteration of the loop of solveBoardByGuessing: a round, then, when it made progress,
     * the tracked set pruned to the borders still UNSET.
     */
    method RoundAndPrune(guesser: Guess.Guesser, stats: SolveStats, unset0: set<int>, ghost exact: bool)
      returns (outcome: Round, unset: set<int>)
      requires Valid() && guesser.Valid() && guesser.board == board
      requires forall b | b in unset0 :: 0 <= b < board.borders.Length
      requires exact ==> unset0 == LoopRule.IndicesWith(board.borders[..], UNSET)
      modifies guesser`currBorderGuessIdx, guesser`borderGuesses, board`cellGroups, board.borders
      modifies stats`totalGuessCount, stats`correctGuessCount
      ensures Valid() && guesser.Valid()
      ensures Grows(old(board.borders[..]), board.borders[..])
      ensures outcome == Progressed ==> CountOf(board.borders[..], UNSET) < CountOf(old(board.borders[..]), UNSET)
      ensures outcome == Progressed ==> unset == set b | b in unset0 && board.borders[b] == UNSET
      ensures outcome == Progressed && exact ==> unset == LoopRule.IndicesWith(board.borders[..], UNSET)
    {
      hide *;
      ghost var before := board.borders[..];
      ghost var committed, refutation, trace;
      outcome, committed, refutation, trace := GuessRound(guesser, stats);
      unset := unset0;
      if outcome == Progressed {
        unset := PruneUnset(board, unset0);
        if exact {
          PrunedExact(before, board.borders, unset0);
        }
      }
    }

    /**
     * The loop of solveBoardByGuessing: one round of guessing after another, dropping the
     * borders that are no longer UNSET from the tracked set, until a round fails or the set
     * is empty. It ends because every round that makes progress fills an UNSET border.
     */
    method GuessLoop(guesser: Guess.Guesser, stats: SolveStats, unset0: set<int>, ghost exact: bool)
      returns (outcome: Round, unset: set<int>)
      requires Valid() && guesser.Valid() && guesser.board == board
      requires forall b | b in unset0 :: 0 <= b < board.borders.Length
      requires exact ==> unset0 == LoopRule.IndicesWith(board.borders[..], UNSET)
      modifies guesser`currBorderGuessIdx, guesser`borderGuesses, board`cellGroups, board.borders
      modifies stats`totalGuessCount, stats`correctGuessCount
      ensures Valid()
      ensures Grows(old(board.borders[..]), board.borders[..])
      ensures outcome == Progressed ==> unset == {}
      ensures outcome == Progressed && exact ==> unset == LoopRule.IndicesWith(board.borders[..], UNSET)
    {
      hide Solve.SolveRun, Solve.After, Guess.Refuted, Guess.Committed;
      unset := unset0;
      outcome := Progressed;
      while true
        invariant Valid() && guesser.Valid() && guesser.board == board
        invariant Grows(old(board.borders[..]), board.borders[..])
        invariant forall b | b in unset :: 0 <= b < board.borders.Length
        invariant exact ==> unset == LoopRule.IndicesWith(board.borders[..], UNSET)
        decreases CountOf(board.borders[..], UNSET)
      {
        outcome, unset := RoundAndPrune(guesser, stats, unset, exact);
        if outcome != Progressed {
          return;
        }
        if |unset| == 0 {
          return;
        }
      }
    }

    /** The end of solveBoardByGuessing once no UNSET border is left: simpleValidation decides. */
    method Conclude(stats: SolveStats) returns (ok: bool)
      requires Valid()
      modifies stats`solved, stats`err
      ensures ok == Solve.Validates(board, board.borders[..])
      ensures ok ==> stats.solved && stats.err == old(stats.err)
      ensures ok && UNSET !in board.borders[..] ==> Solve.Solved(board, board.borders[..])
      ensures !ok ==> stats.err == Some(GuessInvalid) && stats.solved == old(stats.solved)
    {
      ok := Solve.SimpleValidation(board);
      if ok {
        stats.solved := true;
        if UNSET !in board.borders[..] {
          Solve.FinishedValidates(board, board.borders[..]);
        }
      } else {
        stats.err := Some(GuessInvalid);
      }
    }

    /**
     * solveBoardByGuessing: guess, then run the solver, until no UNSET border is left; then
     * the board counts as solved exactly when simpleValidation accepts it. A failed guess
     * or a solver run that turns invalid ends the solve with an error message instead. The
     * loop ends because each committed guess fills an UNSET border and nothing empties one.
     */
    method SolveBoardByGuessing(unsetBorders: Option<set<int>>, solveStats: Option<SolveStats>)
      returns (stats: SolveStats, ghost succeeded: bool)
      requires Valid()
      requires unsetBorders.Some? ==> forall b | b in unsetBorders.value :: 0 <= b < board.borders.Length
      modifies board`cellGroups, board.borders, if solveStats.Some? then {solveStats.value} else {}
      ensures Valid()
      ensures solveStats.Some? ==> stats == solveStats.value
      ensures solveStats.None? ==> fresh(stats)
      ensures Grows(old(board.borders[..]), board.borders[..])
      ensures succeeded ==> stats.solved && Solve.Validates(board, board.borders[..])
      ensures succeeded && (unsetBorders.None? || unsetBorders.value == LoopRule.IndicesWith(old(board.borders[..]), UNSET)) ==>
                UNSET !in board.borders[..] && Solve.Solved(board, board.borders[..])
      ensures succeeded ==> stats.err == (if solveStats.Some? then old(solveStats.value.err) else None)
      ensures !succeeded ==> stats.err == Some(NoCorrectGuess) || stats.err == Some(GuessInvalid)
      ensures !succeeded ==> stats.solved == (if solveStats.Some? then old(solveStats.value.solved) else false)
    {
      if solveStats.Some? {
        stats := solveStats.value;
      } else {
        stats := new SolveStats();
      }
      var unset: set<int>;
      if unsetBorders.Some? {
        unset := unsetBorders.value;
      } else {
        unset := UnsetBorders(board);
      }
      succeeded := GuessUntilComplete(stats, unset);
    }

    /**
     * The body of solveBoardByGuessing once the stats and the tracked UNSET borders are
     * chosen: guess until the tracked set is empty, then validate the board.
     */
    method GuessUntilComplete(stats: SolveStats, unset: set<int>) returns (ghost succeeded: bool)
      requires Valid()
      requires forall b | b in unset :: 0 <= b < board.borders.Length
      modifies board`cellGroups, board.borders, stats
      ensures Valid()
      ensures Grows(old(board.borders[..]), board.borders[..])
      ensures succeeded ==> stats.solved && Solve.Validates(board, board.borders[..])
      ensures succeeded && unset == LoopRule.IndicesWith(old(board.borders[..]), UNSET) ==>
                UNSET !in board.borders[..] && Solve.Solved(board, board.borders[..])
      ensures succeeded ==> stats.err == old(stats.err)
      ensures !succeeded ==> stats.err == Some(NoCorrectGuess) || stats.err == Some(GuessInvalid)
      ensures !succeeded ==> stats.solved == old(stats.solved)
    {
      ghost var exact := unset == LoopRule.IndicesWith(board.borders[..], UNSET);
      var guesser := new Guess.Guesser(board, prioCells, outerPoking, pokingAt, smooth, adjRule, cornerRule);
      var outcome, left := GuessLoop(guesser, stats, unset, exact);
      if outcome == NoGuess {
        stats.err := Some(NoCorrectGuess);
        succeeded := false;
      } else if outcome == Invalid {
        stats.err := Some(GuessInvalid);
        succeeded := false;
      } else {
        if exact {
          NoUnsetLeft(board.borders[..]);
        }
        succeeded := Conclude(stats);
      }
    }

    /** solveInitial: reset the board and apply the initial deductions of Initial.SolveInit. */
    method SolveInitial()
      requires Valid()
      modifies board, board.borders, this`initialized
      ensures Valid() && initialized
      ensures board.borders[..] == Initial.InitCells(board, seq(board.borders.Length, _ => UNSET), board.ReqCells())
    {
      board.Reset();
      assert board.borders[..] == seq(board.borders.Length, _ => UNSET);
      Initial.SolveInit(board);
      initialized := true;
    }

    /**
     * solveBoardFromScratch: reset the board, apply the initial deductions, run the solver,
     * and, if UNSET borders remain, continue by guessing. A solve reported as solved has
     * completed the board to a single loop that meets every clue; otherwise it carries an error.
     */
    method SolveBoardFromScratch() returns (stats: SolveStats)
      requires Valid()
      modifies board, board.borders, this`initialized
      ensures Valid() && initialized
      ensures stats.solved <==> stats.err.None?
      ensures stats.solved ==> UNSET !in board.borders[..] && Solve.Solved(board, board.borders[..])
    {
      hide Solve.SolveRun;
      stats := new SolveStats();
      SolveInitial();
      var isValid, _ := Solve.SolveLoop(board, Rules());
      if !isValid {
        InvalidInitialSolve(false, stats);
      } else {
        AfterInitialSolve(stats);
      }
    }

    /**
     * The rest of solveBoardFromScratch after a valid initial solve: record how many borders
     * are left UNSET, then either validate the complete board or continue by guessing.
     */
    method AfterInitialSolve(stats: SolveStats)
      requires Valid()
      requires !stats.solved && stats.err.None?
      modifies board`cellGroups, board.borders, stats
      ensures Valid()
      ensures stats.solved <==> stats.err.None?
      ensures stats.solved ==> UNSET !in board.borders[..] && Solve.Solved(board, board.borders[..])
    {
      var unsetBorders := UnsetBorders(board);
      stats.unsetBorderCountAfterInitialSolve := |unsetBorders|;
      if |unsetBorders| == 0 {
        NoUnsetLeft(board.borders[..]);
        var ok := Solve.SimpleValidation(board);
        if ok {
          stats.solved := true;
          Solve.FinishedValidates(board, board.borders[..]);
        } else {
          InvalidInitialSolve(true, stats);
        }
      } else {
        ghost var succeeded;
        var stats';
        stats', succeeded := SolveBoardByGuessing(Some(unsetBorders), Some(stats));
      }
    }
  }
}
