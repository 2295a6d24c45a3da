/**
 * Guessing (Guesser): try a status on an UNSET border of a clone, run the solver on the
 * clone, and when that turns out invalid commit the opposite status on the real board.
 */
module Guess {
  import opened Outcomes
  import opened Enums
  import opened BoardTools
  import opened BoardModel
  import opened SetBorder
  import opened ContUnset
  import opened Rules
  import opened SolveStatsModel
  import CellGroup
  import Solve

  /** A border index and the status guessed for it. */
  type Move = (int, BorderStatus)

  // ---------------------------------------------------------------------------------------
  // getBorderGuesses
  // ---------------------------------------------------------------------------------------

  /** The status guessed beside a clue: ACTIVE beside a 1, BLANK beside a 3. */
  predicate ClueMatch(clue: Option<int>, s: BorderStatus)
  {
    (s == ACTIVE && clue == Some(1)) || (s == BLANK && clue == Some(3))
  }

  /** The guess one side of a cell with the given clue yields: none unless the side is UNSET. */
  function SideGuess(clue: Option<int>, b: int, st: BorderStatus): (r: seq<Move>)
    ensures forall m | m in r :: m.0 == b && st == UNSET && ClueMatch(clue, m.1)
    ensures st == UNSET && clue == Some(1) ==> (b, ACTIVE) in r
    ensures st == UNSET && clue == Some(3) ==> (b, BLANK) in r
  {
    if st != UNSET then []
    else if clue == Some(1) then [(b, ACTIVE)]
    else if clue == Some(3) then [(b, BLANK)]
    else []
  }

  /** The guesses from the first n sides (in TOP, RIGHT, BOT, LEFT order) of a valid cell. */
  function CellGuesses(board: Board, bs: seq<BorderStatus>, row: int, col: int, n: nat): seq<Move>
    requires OnBoard(board, bs) && IsValidCellIdx(board.rows, board.cols, row, col) && n <= 4
  {
    if n == 0 then []
    else
      CellBorderSeqValid(board.rows, board.cols, row, col);
      var b := CellBorderSeq(board.cols, row, col)[n - 1];
      CellGuesses(board, bs, row, col, n - 1) + SideGuess(board.cells[row][col], b, bs[b])
  }

  /** The guesses from the first n cells of a row. */
  function RowGuesses(board: Board, bs: seq<BorderStatus>, row: int, n: nat): seq<Move>
    requires OnBoard(board, bs) && 0 <= row < board.rows && n <= board.cols
  {
    if n == 0 then [] else RowGuesses(board, bs, row, n - 1) + CellGuesses(board, bs, row, n - 1, 4)
  }

  /** The guesses from the first n rows. */
  function GridGuesses(board: Board, bs: seq<BorderStatus>, n: nat): seq<Move>
    requires OnBoard(board, bs) && n <= board.rows
  {
    if n == 0 then [] else GridGuesses(board, bs, n - 1) + RowGuesses(board, bs, n - 1, board.cols)
  }

  /** The high-priority list before it is shuffled: cells in row-major order, sides in TOP, RIGHT, BOT, LEFT order. */
  function HighPrio(board: Board, bs: seq<BorderStatus>): seq<Move>
    requires OnBoard(board, bs)
  {
    GridGuesses(board, bs, board.rows)
  }

  /** m guesses an UNSET side of cell (i, j): ACTIVE if the cell is a 1, BLANK if it is a 3. */
  ghost predicate GuessFrom(board: Board, bs: seq<BorderStatus>, i: int, j: int, m: Move)
    requires OnBoard(board, bs) && IsValidCellIdx(board.rows, board.cols, i, j)
  {
    && m.0 in CellBorderSeq(board.cols, i, j)
    && 0 <= m.0 < |bs| && bs[m.0] == UNSET
    && ClueMatch(board.cells[i][j], m.1)
  }

  /** m guesses an UNSET side of some 1-cell (ACTIVE) or 3-cell (BLANK). */
  ghost predicate Guessable(board: Board, bs: seq<BorderStatus>, m: Move)
    requires OnBoard(board, bs)
  {
    exists i, j | IsValidCellIdx(board.rows, board.cols, i, j) :: GuessFrom(board, bs, i, j, m)
  }

  lemma {:induction false} CellGuessesMeaning(board: Board, bs: seq<BorderStatus>, i: int, j: int, n: nat, m: Move)
    requires OnBoard(board, bs) && IsValidCellIdx(board.rows, board.cols, i, j) && n <= 4
    ensures m in CellGuesses(board, bs, i, j, n) <==>
              m.0 in CellBorderSeq(board.cols, i, j)[..n] && 0 <= m.0 < |bs| && bs[m.0] == UNSET
              && ClueMatch(board.cells[i][j], m.1)
  {
    if n > 0 {
      CellGuessesMeaning(board, bs, i, j, n - 1, m);
      var sides := CellBorderSeq(board.cols, i, j);
      CellBorderSeqValid(board.rows, board.cols, i, j);
      assert sides[..n] == sides[..n - 1] + [sides[n - 1]];
    }
  }

  lemma CellGuessesFrom(board: Board, bs: seq<BorderStatus>, i: int, j: int, m: Move)
    requires OnBoard(board, bs) && IsValidCellIdx(board.rows, board.cols, i, j)
    ensures m in CellGuesses(board, bs, i, j, 4) <==> GuessFrom(board, bs, i, j, m)
  {
    CellGuessesMeaning(board, bs, i, j, 4, m);
    var sides := CellBorderSeq(board.cols, i, j);
    assert sides[..4] == sides;
  }

  /** A guess in the first n cells of a row comes from one of them. */
  lemma {:induction false} RowGuessesSource(board: Board, bs: seq<BorderStatus>, i: int, n: nat, m: Move) returns (j: int)
    requires OnBoard(board, bs) && 0 <= i < board.rows && n <= board.cols
    requires m in RowGuesses(board, bs, i, n)
    ensures 0 <= j < n && GuessFrom(board, bs, i, j, m)
  {
    var last := n - 1;
    CellGuessesFrom(board, bs, i, last, m);
    if m in RowGuesses(board, bs, i, last) {
      j := RowGuessesSource(board, bs, i, last, m);
    } else {
      j := last;
    }
  }

  /** Every guess of a cell among the first n of a row is in the row's list. */
  lemma {:induction false} RowGuessesHas(board: Board, bs: seq<BorderStatus>, i: int, n: nat, j: int, m: Move)
    requires OnBoard(board, bs) && 0 <= i < board.rows && n <= board.cols
    requires 0 <= j < n && GuessFrom(board, bs, i, j, m)
    ensures m in RowGuesses(board, bs, i, n)
  {
    var last := n - 1;
    if j < last {
      RowGuessesHas(board, bs, i, last, j, m);
    } else {
      CellGuessesFrom(board, bs, i, last, m);
    }
  }

  /** A guess in the first n rows comes from one of their cells. */
  lemma {:induction false} GridGuessesSource(board: Board, bs: seq<BorderStatus>, n: nat, m: Move) returns (i: int, j: int)
    requires OnBoard(board, bs) && n <= board.rows
    requires m in GridGuesses(board, bs, n)
    ensures 0 <= i < n && 0 <= j < board.cols && GuessFrom(board, bs, i, j, m)
  {
    var last := n - 1;
    if m in GridGuesses(board, bs, last) {
      i, j := GridGuessesSource(board, bs, last, m);
    } else {
      i := last;
      j := RowGuessesSource(board, bs, last, board.cols, m);
    }
  }

  /** Every guess of a cell in the first n rows is in the list. */
  lemma {:induction false} GridGuessesHas(board: Board, bs: seq<BorderStatus>, n: nat, i: int, j: int, m: Move)
    requires OnBoard(board, bs) && n <= board.rows
    requires 0 <= i < n && 0 <= j < board.cols && GuessFrom(board, bs, i, j, m)
    ensures m in GridGuesses(board, bs, n)
  {
    var last := n - 1;
    var prefix, row := GridGuesses(board, bs, last), RowGuesses(board, bs, last, board.cols);
    assert GridGuesses(board, bs, n) == prefix + row;
    if i < last {
      GridGuessesHas(board, bs, last, i, j, m);
      assert m in prefix;
    } else {
      RowGuessesHas(board, bs, last, board.cols, j, m);
      assert m in row;
    }
  }

  /** The high-priority list holds exactly the guessable moves. */
  lemma HighPrioMeaning(board: Board, bs: seq<BorderStatus>, m: Move)
    requires OnBoard(board, bs)
    ensures m in HighPrio(board, bs) <==> Guessable(board, bs, m)
  {
    if m in HighPrio(board, bs) {
      var i, j := GridGuessesSource(board, bs, board.rows, m);
    }
    if Guessable(board, bs, m) {
      var i, j :| IsValidCellIdx(board.rows, board.cols, i, j) && GuessFrom(board, bs, i, j, m);
      GridGuessesHas(board, bs, board.rows, i, j, m);
    }
  }

  /** The low-priority list built from the first n borders: UNSET borders missing from `done`, each guessed ACTIVE. */
  function LowPrio(bs: seq<BorderStatus>, done: set<int>, n: nat): (r: seq<Move>)
    requires n <= |bs|
    ensures forall m | m in r :: 0 <= m.0 < n && m.0 !in done && bs[m.0] == UNSET && m.1 == ACTIVE
  {
    if n == 0 then []
    else LowPrio(bs, done, n - 1) + (if n - 1 !in done && bs[n - 1] == UNSET then [(n - 1, ACTIVE)] else [])
  }

  /** Once every UNSET border is in `done`, the low-priority list is empty. */
  lemma {:induction false} LowPrioEmpty(bs: seq<BorderStatus>, done: set<int>, n: nat)
    requires n <= |bs|
    requires forall b | 0 <= b < n && bs[b] == UNSET :: b in done
    ensures LowPrio(bs, done, n) == []
  {
    if n > 0 {
      LowPrioEmpty(bs, done, n - 1);
    }
  }

  /** Every UNSET side of the cells before (row, col) in row-major order is in `done`. */
  ghost predicate SidesDone(board: Board, bs: seq<BorderStatus>, done: set<int>, row: int, col: int)
    requires OnBoard(board, bs)
  {
    forall i, j, k | IsValidCellIdx(board.rows, board.cols, i, j) && (i < row || (i == row && j < col)) && 0 <= k < 4 ::
      var b := CellBorderSeq(board.cols, i, j)[k];
      0 <= b < |bs| && bs[b] == UNSET ==> b in done
  }

  /** Adding the UNSET sides of cell (row, col) to `done` extends SidesDone past that cell. */
  lemma SidesDoneNext(board: Board, bs: seq<BorderStatus>, done: set<int>, done': set<int>, row: int, col: int)
    requires OnBoard(board, bs) && IsValidCellIdx(board.rows, board.cols, row, col)
    requires SidesDone(board, bs, done, row, col) && done <= done'
    requires forall k | 0 <= k < 4 ::
               var b := CellBorderSeq(board.cols, row, col)[k];
               0 <= b < |bs| && (bs[b] == UNSET ==> b in done')
    ensures SidesDone(board, bs, done', row, col + 1)
  {
  }

  /** Past the last cell of a row is the start of the next row. */
  lemma SidesDoneRow(board: Board, bs: seq<BorderStatus>, done: set<int>, row: int)
    requires OnBoard(board, bs) && SidesDone(board, bs, done, row, board.cols)
    ensures SidesDone(board, bs, done, row + 1, 0)
  {
  }

  /** Every index in `done` is an UNSET border. */
  ghost predicate DoneUnset(bs: seq<BorderStatus>, done: set<int>)
  {
    forall b | b in done :: 0 <= b < |bs| && bs[b] == UNSET
  }

  /** Every border is a side of a cell, so once all cells are done every UNSET border is in `done`. */
  lemma AllSidesDone(board: Board, bs: seq<BorderStatus>, done: set<int>)
    requires OnBoard(board, bs) && SidesDone(board, bs, done, board.rows, 0)
    ensures forall b | 0 <= b < |bs| && bs[b] == UNSET :: b in done
  {
    forall b | 0 <= b < |bs| && bs[b] == UNSET
      ensures b in done
    {
      var (cell, d) := SideOf(board.rows, board.cols, b);
      assert CellBorderSeq(board.cols, cell.0, cell.1)[CardinalValue(d)] == b;
    }
  }

  /** One cell of getBorderGuesses' first loop: its guesses, and its UNSET sides added to `done`. */
  method CellPass(board: Board, row: int, col: int, done: set<int>) returns (guesses: seq<Move>, done': set<int>)
    requires board.WellFormed() && IsValidCellIdx(board.rows, board.cols, row, col)
    requires SidesDone(board, board.borders[..], done, row, col) && DoneUnset(board.borders[..], done)
    ensures guesses == CellGuesses(board, board.borders[..], row, col, 4)
    ensures SidesDone(board, board.borders[..], done', row, col + 1) && DoneUnset(board.borders[..], done')
  {
    ghost var bs := board.borders[..];
    var sides := CellBorderSeq(board.cols, row, col);
    CellBorderSeqValid(board.rows, board.cols, row, col);
    guesses := [];
    done' := done;
    for k := 0 to 4
      invariant guesses == CellGuesses(board, bs, row, col, k)
      invariant done <= done' && DoneUnset(bs, done')
      invariant forall k' | 0 <= k' < k :: bs[sides[k']] == UNSET ==> sides[k'] in done'
    {
      var b := sides[k];
      if board.borders[b] == UNSET {
        done' := done' + {b};
        if board.cells[row][col] == Some(1) {
          guesses := guesses + [(b, ACTIVE)];
        } else if board.cells[row][col] == Some(3) {
          guesses := guesses + [(b, BLANK)];
        }
      }
    }
    SidesDoneNext(board, bs, done, done', row, col);
  }

  /** One row of getBorderGuesses' first loop. */
  method RowPass(board: Board, row: int, done: set<int>) returns (rowGuesses: seq<Move>, done': set<int>)
    requires board.WellFormed() && 0 <= row < board.rows
    requires SidesDone(board, board.borders[..], done, row, 0) && DoneUnset(board.borders[..], done)
    ensures rowGuesses == RowGuesses(board, board.borders[..], row, board.cols)
    ensures SidesDone(board, board.borders[..], done', row + 1, 0) && DoneUnset(board.borders[..], done')
  {
    ghost var bs := board.borders[..];
    rowGuesses := [];
    done' := done;
    for col := 0 to board.cols
      invariant rowGuesses == RowGuesses(board, bs, row, col)
      invariant SidesDone(board, bs, done', row, col) && DoneUnset(bs, done')
    {
      var cellGuesses;
      cellGuesses, done' := CellPass(board, row, col, done');
      rowGuesses := rowGuesses + cellGuesses;
    }
    SidesDoneRow(board, bs, done', row);
  }

  /** The second loop of getBorderGuesses: the UNSET borders the cell loop did not reach, guessed ACTIVE. */
  method LowPass(board: Board, done: set<int>) returns (low: seq<Move>)
    ensures low == LowPrio(board.borders[..], done, board.borders.Length)
  {
    low := [];
    for b := 0 to board.borders.Length
      invariant low == LowPrio(board.borders[..], done, b)
    {
      if b !in done && board.borders[b] == UNSET {
        low := low + [(b, ACTIVE)];
      }
    }
  }

  /** The entries of a list holding only guessable moves are in range and not UNSET. */
  lemma GuessableEntries(board: Board, bs: seq<BorderStatus>, guesses: seq<Move>)
    requires OnBoard(board, bs)
    requires forall m | m in guesses :: Guessable(board, bs, m)
    ensures forall k | 0 <= k < |guesses| :: 0 <= guesses[k].0 < |bs| && guesses[k].1 != UNSET
  {
    forall k | 0 <= k < |guesses|
      ensures 0 <= guesses[k].0 < |bs| && guesses[k].1 != UNSET
    {
      assert guesses[k] in guesses;
      var i, j :| IsValidCellIdx(board.rows, board.cols, i, j) && GuessFrom(board, bs, i, j, guesses[k]);
    }
  }

  /**
   * getBorderGuesses: one guess per UNSET side of a 1-cell (ACTIVE) or a 3-cell (BLANK),
   * a border shared by two such cells once per cell, followed by the low-priority list,
   * which is always empty. The lists are shuffled, so only the multiset of entries is promised.
   */
  method GetBorderGuesses(board: Board) returns (guesses: seq<Move>)
    requires board.WellFormed()
    ensures OnBoard(board, board.borders[..])
    ensures multiset(guesses) == multiset(HighPrio(board, board.borders[..]))
    ensures forall m :: m in guesses <==> Guessable(board, board.borders[..], m)
    ensures forall k | 0 <= k < |guesses| :: 0 <= guesses[k].0 < board.borders.Length && guesses[k].1 != UNSET
  {
    ghost var bs := board.borders[..];
    var done: set<int> := {};
    var high: seq<Move> := [];
    for row := 0 to board.rows
      invariant high == GridGuesses(board, bs, row)
      invariant SidesDone(board, bs, done, row, 0)
      invariant DoneUnset(bs, done)
    {
      var rowGuesses;
      rowGuesses, done := RowPass(board, row, done);
      high := high + rowGuesses;
    }
    AllSidesDone(board, bs, done);
    var low := LowPass(board, done);
    LowPrioEmpty(bs, done, |bs|);
    guesses := high + low;
    assert guesses == HighPrio(board, bs);
    forall m
      ensures m in guesses <==> Guessable(board, bs, m)
    {
      HighPrioMeaning(board, bs, m);
    }
    GuessableEntries(board, bs, guesses);
  }

  // ---------------------------------------------------------------------------------------
  // _getConnectedCells
  // ---------------------------------------------------------------------------------------

  ghost function GridCells(rows: int, cols: int): set<Cell>
  {
    set i, j | 0 <= i < rows && 0 <= j < cols :: (i, j)
  }

  /** Side d of cell x is BLANK and has an in-grid neighbour across it. */
  ghost predicate CrossesBlank(board: Board, bs: seq<BorderStatus>, x: Cell, d: CardinalDirection)
  {
    var b := BorderIdx(board.cols, x.0, x.1, d);
    0 <= b < |bs| && bs[b] == BLANK && AdjCell(board.rows, board.cols, x.0, x.1, d).Some?
  }

  /** Every neighbour of x across a BLANK side is in s. */
  ghost predicate NeighboursIn(board: Board, bs: seq<BorderStatus>, x: Cell, s: set<Cell>)
  {
    forall d | CrossesBlank(board, bs, x, d) :: AdjCell(board.rows, board.cols, x.0, x.1, d).value in s
  }

  /**
   * _getConnectedCells: add (row, col) and, depth first, every cell reachable from it across
   * BLANK borders that is not yet in connCells. Every cell it adds is an in-grid cell whose
   * neighbours across BLANK sides are in the result, so from an empty set the result is closed.
   */
  method GetConnectedCells(board: Board, row: int, col: int, connCells: set<Cell>) returns (r: set<Cell>)
    requires board.Valid() && IsValidCellIdx(board.rows, board.cols, row, col)
    ensures (row, col) in r && connCells <= r
    ensures (row, col) in connCells ==> r == connCells
    ensures r - connCells <= GridCells(board.rows, board.cols)
    ensures forall x | x in r - connCells :: NeighboursIn(board, board.borders[..], x, r)
    decreases GridCells(board.rows, board.cols) - connCells
  {
    if (row, col) in connCells {
      return connCells;
    }
    r := connCells + {(row, col)};
    CellBordersValid(board.rows, board.cols, row, col);
    for k := 0 to 4
      invariant (row, col) in r && connCells <= r
      invariant r - connCells <= GridCells(board.rows, board.cols)
      invariant forall x | x in r - connCells && x != (row, col) :: NeighboursIn(board, board.borders[..], x, r)
      invariant forall k' | 0 <= k' < k && CrossesBlank(board, board.borders[..], (row, col), AllCardinal[k']) ::
                  AdjCell(board.rows, board.cols, row, col, AllCardinal[k']).value in r
    {
      var d := AllCardinal[k];
      if board.borders[BorderIdx(board.cols, row, col, d)] == BLANK {
        var adj := AdjCell(board.rows, board.cols, row, col, d);
        if adj.Some? {
          assert (row, col) in GridCells(board.rows, board.cols) - connCells;
          ghost var before := r;
          r := GetConnectedCells(board, adj.value.0, adj.value.1, r);
          forall x | x in before - connCells && x != (row, col)
            ensures NeighboursIn(board, board.borders[..], x, r)
          {
            assert NeighboursIn(board, board.borders[..], x, before);
          }
        }
      }
    }
    forall d | CrossesBlank(board, board.borders[..], (row, col), d)
      ensures AdjCell(board.rows, board.cols, row, col, d).value in r
    {
      assert AllCardinal[CardinalValue(d)] == d;
    }
  }

  // ---------------------------------------------------------------------------------------
  // The Guesser
  // ---------------------------------------------------------------------------------------

  /** How many of the guesses at positions lo up to hi name a border that is UNSET in bs. */
  function UnsetGuesses(bs: seq<BorderStatus>, guesses: seq<Move>, lo: nat, hi: int): nat
    decreases hi - lo
  {
    if hi <= lo then 0
    else
      var k := hi - 1;
      UnsetGuesses(bs, guesses, lo, k) + (if k < |guesses| && 0 <= guesses[k].0 < |bs| && bs[guesses[k].0] == UNSET then 1 else 0)
  }

  /**
   * bs1 is bs0 with one guess refuted: the guess at position c names a border that was
   * UNSET, that border now holds the opposite of the guessed status, and nothing else changed.
   */
  ghost predicate Committed(bs0: seq<BorderStatus>, bs1: seq<BorderStatus>, guesses: seq<Move>, c: int)
  {
    && 0 <= c < |guesses|
    && var b := guesses[c].0;
       && 0 <= b < |bs0| && |bs1| == |bs0| && bs0[b] == UNSET
       && bs1 == bs0[b := bs1[b]]
       && StatusOpposite(guesses[c].1) == Ok(bs1[b])
  }

  /** A committed guess fills one UNSET border and nothing else. */
  lemma CommittedFills(bs0: seq<BorderStatus>, bs1: seq<BorderStatus>, guesses: seq<Move>, c: int)
    requires Committed(bs0, bs1, guesses, c)
    ensures Grows(bs0, bs1) && CountOf(bs1, UNSET) < CountOf(bs0, UNSET)
  {
    Solve.GrowsCount(bs0, bs1);
  }

  /**
   * What the guesses of one call are solved against: the board, the rules of _solve, and the
   * pokes and cell groups the board holds (a clone copies both).
   */
  datatype Context = Context(board: Board, rules: Solve.PassRules, pokes: set<(int, int, DiagonalDirection)>,
                             groups: CellGroup.Groups)

  /** A run of _solve on a clone: the clone it ran on and its passes. */
  datatype Trial = Trial(clone: Board, trace: seq<Solve.PassRecord>)

  /**
   * t is a run of _solve on a clone of ctx.board whose borders were bs: the clone has the
   * board's clues, is marked as a clone, starts from the board's pokes and groups, and the
   * passes of t end with isValid.
   */
  ghost predicate TrialRun(ctx: Context, bs: seq<BorderStatus>, t: Trial, isValid: bool)
  {
    && t.clone.rows == ctx.board.rows && t.clone.cols == ctx.board.cols && t.clone.cells == ctx.board.cells
    && Solve.SolveRun(Solve.Setting(t.clone, ctx.rules, true, ctx.pokes), ctx.groups, bs, t.trace, isValid)
  }

  /** The guess at position c was solved on a clone of bs and the run ended in InvalidBoard. */
  ghost predicate Refuted(ctx: Context, bs: seq<BorderStatus>, guesses: seq<Move>, c: int, run: Trial)
  {
    0 <= c < |guesses| && 0 <= guesses[c].0 < |bs| && TrialRun(ctx, bs[guesses[c].0 := guesses[c].1], run, false)
  }

  /**
   * m is the move a refuted guess gives: the guess at position c names a border that is
   * UNSET in bs, its clone ended in InvalidBoard, and m sets that border to the opposite status.
   */
  ghost predicate Found(ctx: Context, bs: seq<BorderStatus>, guesses: seq<Move>, c: int, m: Move, run: Trial)
  {
    && Refuted(ctx, bs, guesses, c, run)
    && bs[guesses[c].0] == UNSET
    && m.0 == guesses[c].0 && StatusOpposite(guesses[c].1) == Ok(m.1)
  }

  /**
   * Every guess at positions lo up to hi whose border is UNSET in bs was tried on a clone:
   * checked holds the run of _solve on that clone, which ended valid.
   */
  ghost predicate PassedOver(ctx: Context, bs: seq<BorderStatus>, guesses: seq<Move>, lo: int, hi: int, checked: map<int, Trial>)
  {
    forall k | lo <= k < hi && 0 <= k < |guesses| && 0 <= guesses[k].0 < |bs| && bs[guesses[k].0] == UNSET ::
      k in checked && TrialRun(ctx, bs[guesses[k].0 := guesses[k].1], checked[k], true)
  }

  /** The state of the scan of getCorrectMoveByGuessing after the guesses start..idx. */
  ghost predicate Scanning(ctx: Context, bs: seq<BorderStatus>, guesses: seq<Move>, start: nat, idx: nat, move: Option<Move>,
                           guessCount: nat, refutation: Trial, checked: map<int, Trial>)
  {
    && PassedOver(ctx, bs, guesses, start, idx, checked)
    && (move.None? ==> guessCount == UnsetGuesses(bs, guesses, start, idx))
    && (move.Some? ==> Found(ctx, bs, guesses, idx, move.value, refutation))
    && (move.Some? ==> guessCount == UnsetGuesses(bs, guesses, start, idx + 1))
  }

  /** One turn of the scan, on the guess at idx, tried (when UNSET) with the outcome isValid. */
  lemma ScanningNext(ctx: Context, bs: seq<BorderStatus>, guesses: seq<Move>, start: nat, idx: nat, guessCount: nat,
                     none: Trial, checked: map<int, Trial>, isValid: bool, run: Trial)
    requires Scanning(ctx, bs, guesses, start, idx, None, guessCount, none, checked)
    requires start <= idx < |guesses| && 0 <= guesses[idx].0 < |bs| && guesses[idx].1 != UNSET
    requires bs[guesses[idx].0] == UNSET ==> TrialRun(ctx, bs[guesses[idx].0 := guesses[idx].1], run, isValid)
    requires bs[guesses[idx].0] != UNSET ==> isValid
    ensures var count := guessCount + (if bs[guesses[idx].0] == UNSET then 1 else 0);
            if isValid then
              Scanning(ctx, bs, guesses, start, idx + 1, None, count, none,
                       if bs[guesses[idx].0] == UNSET then checked[idx := run] else checked)
            else
              StatusOpposite(guesses[idx].1).Ok? &&
              Scanning(ctx, bs, guesses, start, idx, Some((guesses[idx].0, StatusOpposite(guesses[idx].1).value)), count, run, checked)
  {
    hide TrialRun;
    if isValid {
      PassedOverNext(ctx, bs, guesses, start, idx, checked, run);
    }
  }

  /** One more guess passed over: tried and found valid when its border is UNSET, skipped otherwise. */
  lemma PassedOverNext(ctx: Context, bs: seq<BorderStatus>, guesses: seq<Move>, lo: int, hi: int, checked: map<int, Trial>, run: Trial)
    requires PassedOver(ctx, bs, guesses, lo, hi, checked) && 0 <= hi < |guesses| && 0 <= guesses[hi].0 < |bs|
    requires bs[guesses[hi].0] == UNSET ==> TrialRun(ctx, bs[guesses[hi].0 := guesses[hi].1], run, true)
    ensures PassedOver(ctx, bs, guesses, lo, hi + 1, if bs[guesses[hi].0] == UNSET then checked[hi := run] else checked)
  {
    hide TrialRun;
  }

  class Guesser {
    const board: Board
    /** The solve callback: Solver._solve with its cell order and rule helpers. */
    const prioCells: seq<Cell>
    const outerPoking: CellRule
    const pokingAt: PokingRule
    const smooth: SmoothRule
    const adjRule: CellGroup.AdjGroupsRule
    const cornerRule: Solve.BoardRule
    var currBorderGuessIdx: nat
    var borderGuesses: seq<Move>

    ghost predicate Valid()
      reads this, board
    {
      && board.WellFormed()
      && (forall k | 0 <= k < |prioCells| :: IsValidCellIdx(board.rows, board.cols, prioCells[k].0, prioCells[k].1))
      && (forall k | 0 <= k < |borderGuesses| :: 0 <= borderGuesses[k].0 < board.borders.Length && borderGuesses[k].1 != UNSET)
    }

    /** The rules of the solve callback. */
    ghost function Rules(): Solve.PassRules
    {
      Solve.PassRules(prioCells, outerPoking, pokingAt, smooth, adjRule, cornerRule)
    }

    /** What a guess is solved against: this board, the rules, and the board's pokes and groups. */
    ghost function Ctx(): Context
      reads board
    {
      Context(board, Rules(), board.pokes, board.cellGroups)
    }

    constructor (board: Board, prioCells: seq<Cell>, outerPoking: CellRule, pokingAt: PokingRule,
                 smooth: SmoothRule, adjRule: CellGroup.AdjGroupsRule, cornerRule: Solve.BoardRule)
      requires board.WellFormed()
      requires forall k | 0 <= k < |prioCells| :: IsValidCellIdx(board.rows, board.cols, prioCells[k].0, prioCells[k].1)
      ensures Valid() && this.board == board && this.prioCells == prioCells
      ensures currBorderGuessIdx == 0 && borderGuesses == []
    {
      this.board := board;
      this.prioCells := prioCells;
      this.outerPoking, this.pokingAt, this.smooth := outerPoking, pokingAt, smooth;
      this.adjRule, this.cornerRule := adjRule, cornerRule;
      currBorderGuessIdx := 0;
      borderGuesses := [];
    }

    /**
     * One guess of getCorrectMoveByGuessing: clone the board, set border b to st on the clone
     * and solve the clone; the board itself is left alone.
     */
    method SolveWithGuess(b: int, st: BorderStatus) returns (isValid: bool, ghost trial: Trial)
      requires Valid() && 0 <= b < board.borders.Length
      ensures TrialRun(Ctx(), board.borders[..][b := st], trial, isValid)
    {
      hide Solve.PassOutcome;
      var clone := board.Clone();
      clone.borders[b] := st;
      assert clone.borders[..] == board.borders[..][b := st];
      ghost var trace;
      isValid, trace := Solve.SolveLoop(clone, Solve.PassRules(prioCells, outerPoking, pokingAt, smooth, adjRule, cornerRule));
      trial := Trial(clone, trace);
    }

    /**
     * The guess at position c, as one turn of getCorrectMoveByGuessing takes it: tried on a
     * clone when its border is still UNSET, skipped (and so not refuted) otherwise.
     */
    method TryGuessAt(c: nat) returns (tried: bool, isValid: bool, ghost run: Trial)
      requires Valid() && c < |borderGuesses|
      ensures tried == (board.borders[borderGuesses[c].0] == UNSET)
      ensures tried ==> TrialRun(Ctx(), board.borders[..][borderGuesses[c].0 := borderGuesses[c].1], run, isValid)
      ensures !tried ==> isValid
    {
      hide TrialRun, Ctx;
      var (b, st) := borderGuesses[c];
      tried, isValid, run := board.borders[b] == UNSET, true, Trial(board, []);
      if tried {
        isValid, run := SolveWithGuess(b, st);
      }
    }

    /**
     * The loop of getCorrectMoveByGuessing, from guess start on: try each guess whose border
     * is still UNSET on a clone and solve the clone. The first guess whose clone turns out
     * invalid is refuted: its border with the opposite status is returned, with idx on it.
     * Otherwise idx runs to the end of the list. guessCount counts the clones solved.
     */
    method ScanGuesses(start: nat) returns (idx: nat, move: Option<Move>, guessCount: nat,
                                           ghost refutation: Trial, ghost checked: map<int, Trial>)
      requires Valid()
      ensures start <= idx
      ensures PassedOver(Ctx(), board.borders[..], borderGuesses, start, idx, checked)
      ensures move.None? ==> idx >= |borderGuesses|
      ensures move.None? ==> guessCount == UnsetGuesses(board.borders[..], borderGuesses, start, |borderGuesses|)
      ensures move.Some? ==> Found(Ctx(), board.borders[..], borderGuesses, idx, move.value, refutation)
      ensures move.Some? ==> guessCount == UnsetGuesses(board.borders[..], borderGuesses, start, idx + 1)
    {
      hide TrialRun, Ctx;
      ghost var bs := board.borders[..];
      idx, move, guessCount := start, None, 0;
      ghost var none := Trial(board, []);
      refutation, checked := none, map[];
      while idx < |borderGuesses| && move.None?
        invariant start <= idx
        invariant idx <= |borderGuesses| || idx == start
        invariant move.None? ==> refutation == none
        invariant Scanning(Ctx(), bs, borderGuesses, start, idx, move, guessCount, refutation, checked)
        decreases |borderGuesses| - idx, if move.None? then 1 else 0
      {
        var tried, isValid, run := TryGuessAt(idx);
        ScanningNext(Ctx(), bs, borderGuesses, start, idx, guessCount, none, checked, isValid, run);
        if tried {
          guessCount := guessCount + 1;
        }
        if !isValid {
          // The opposite of the guess is the move; idx stays on it.
          var (b, st) := borderGuesses[idx];
          var opposite := StatusOpposite(st);
          move, refutation := Some((b, opposite.value)), run;
        } else {
          if tried {
            checked := checked[idx := run];
          }
          idx := idx + 1;
        }
      }
    }

    /**
     * getCorrectMoveByGuessing: scan the guesses from the cursor on, and leave the cursor
     * on the refuted guess, or past the end when none is refuted. The board is only read.
     */
    method GetCorrectMoveByGuessing() returns (move: Option<Move>, guessCount: nat,
                                               ghost refutation: Trial, ghost checked: map<int, Trial>)
      requires Valid()
      modifies this`currBorderGuessIdx
      ensures Valid() && old(currBorderGuessIdx) <= currBorderGuessIdx
      ensures board.borders[..] == old(board.borders[..]) && board.cellGroups == old(board.cellGroups)
      ensures PassedOver(Ctx(), board.borders[..], borderGuesses, old(currBorderGuessIdx), currBorderGuessIdx, checked)
      ensures move.None? ==> currBorderGuessIdx >= |borderGuesses|
      ensures move.None? ==> guessCount == UnsetGuesses(board.borders[..], borderGuesses, old(currBorderGuessIdx), |borderGuesses|)
      ensures move.Some? ==> Found(Ctx(), board.borders[..], borderGuesses, currBorderGuessIdx, move.value, refutation)
      ensures move.Some? ==> guessCount == UnsetGuesses(board.borders[..], borderGuesses, old(currBorderGuessIdx), currBorderGuessIdx + 1)
    {
      hide TrialRun, Ctx;
      var idx;
      idx, move, guessCount, refutation, checked := ScanGuesses(currBorderGuessIdx);
      currBorderGuessIdx := idx;
    }

    /**
     * guessBorders: find a refuted guess and commit its opposite on the board. The border is
     * UNSET by then, so the AssertionError of the source cannot be raised. Every clone solved
     * is added to totalGuessCount and every commit to correctGuessCount.
     */
    method GuessBorders(stats: SolveStats) returns (found: bool, ghost refutation: Trial)
      requires Valid()
      modifies this`currBorderGuessIdx, board.borders, stats`totalGuessCount, stats`correctGuessCount
      ensures Valid() && old(currBorderGuessIdx) <= currBorderGuessIdx
      ensures found ==> Committed(old(board.borders[..]), board.borders[..], borderGuesses, currBorderGuessIdx)
      ensures found ==> Refuted(Ctx(), old(board.borders[..]), borderGuesses, currBorderGuessIdx, refutation)
      ensures !found ==> board.borders[..] == old(board.borders[..]) && currBorderGuessIdx >= |borderGuesses|
      ensures stats.totalGuessCount == old(stats.totalGuessCount) +
                UnsetGuesses(old(board.borders[..]), borderGuesses, old(currBorderGuessIdx),
                             if found then currBorderGuessIdx + 1 else |borderGuesses|)
      ensures stats.correctGuessCount == old(stats.correctGuessCount) + (if found then 1 else 0)
    {
      hide TrialRun, PassedOver, Ctx;
      var correctMove, guessCount, run, _ := GetCorrectMoveByGuessing();
      refutation := run;
      stats.totalGuessCount := stats.totalGuessCount + guessCount;
      if correctMove.Some? {
        var (b, newStatus) := correctMove.value;
        assert board.borders[b] == UNSET;
        board.borders[b] := newStatus;
        stats.correctGuessCount := stats.correctGuessCount + 1;
        return true, refutation;
      }
      return false, refutation;
    }

    /**
     * guess: rebuild the guess list when the cursor is at or past its end (the cursor itself
     * is kept), then guessBorders.
     */
    method Guess(stats: SolveStats) returns (found: bool, ghost refutation: Trial)
      requires Valid()
      modifies this`currBorderGuessIdx, this`borderGuesses, board.borders, stats`totalGuessCount, stats`correctGuessCount
      ensures Valid() && old(currBorderGuessIdx) <= currBorderGuessIdx
      ensures old(currBorderGuessIdx) < old(|borderGuesses|) ==> borderGuesses == old(borderGuesses)
      ensures old(currBorderGuessIdx) >= old(|borderGuesses|) ==>
                OnBoard(board, old(board.borders[..])) &&
                multiset(borderGuesses) == multiset(HighPrio(board, old(board.borders[..])))
      ensures found ==> Committed(old(board.borders[..]), board.borders[..], borderGuesses, currBorderGuessIdx)
      ensures found ==> Refuted(Ctx(), old(board.borders[..]), borderGuesses, currBorderGuessIdx, refutation)
      ensures !found ==> board.borders[..] == old(board.borders[..]) && currBorderGuessIdx >= |borderGuesses|
      ensures stats.totalGuessCount >= old(stats.totalGuessCount)
      ensures stats.correctGuessCount == old(stats.correctGuessCount) + (if found then 1 else 0)
    {
      hide TrialRun, Ctx;
      if currBorderGuessIdx >= |borderGuesses| {
        borderGuesses := GetBorderGuesses(board);
      }
      found, refutation := GuessBorders(stats);
    }
  }
}
