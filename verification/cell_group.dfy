/**
 * Cell groups: every cell is either outside the loop (group 0) or inside it (group 1).
 * updateCellGroups spreads the groups known from the grid edge across set borders (a BLANK
 * border joins two cells of one group, an ACTIVE border separates the two groups) and across
 * the corners whose entry is known; checkCellGroupClues then turns the groups into moves.
 */
module CellGroup {
  import opened Outcomes
  import opened Enums
  import opened BoardTools
  import opened BoardModel
  import opened SetBorder
  import opened SolverTools
  import opened Poke
  import opened ContUnset

  type Groups = seq<seq<Option<int>>>

  // ---------------------------------------------------------------------------------------
  // updateCellGroups: the flood fill
  // ---------------------------------------------------------------------------------------

  /** The cells of a rows x cols grid. */
  function GridCells(rows: int, cols: int): (s: set<Cell>)
    ensures forall p :: p in s <==> IsValidCellIdx(rows, cols, p.0, p.1)
  {
    set r, c | 0 <= r < rows && 0 <= c < cols :: (r, c)
  }

  /** The group across an ACTIVE border from a cell of group g. */
  function OtherGroup(g: int): (h: int)
    ensures g == 0 <==> h == 1
    ensures g != 0 <==> h == 0
  {
    if g == 0 then 1 else 0
  }

  /**
   * The two cells that share corner d of (row, col) with it: the one above or below, then
   * the one to the left or right (either may lie off the grid).
   */
  function CornerCells(row: int, col: int, d: DiagonalDirection): (r: (Cell, Cell))
    ensures r.0 == (DiagRow(row, d), col) && r.1 == (row, DiagCol(col, d))
  {
    match d
    case ULEFT => ((row - 1, col), (row, col - 1))
    case URIGHT => ((row - 1, col), (row, col + 1))
    case LRIGHT => ((row + 1, col), (row, col + 1))
    case LLEFT => ((row + 1, col), (row, col - 1))
  }

  /** The group of a cell as the corner rule reads it: the known group on the grid, 0 off it. */
  function GroupAt(rows: int, cols: int, groups: Groups, p: Cell): (g: Option<int>)
    requires IsGrid(groups, rows, cols)
    ensures IsValidCellIdx(rows, cols, p.0, p.1) ==> g == groups[p.0][p.1]
    ensures !IsValidCellIdx(rows, cols, p.0, p.1) ==> g == Some(0)
  {
    if IsValidCellIdx(rows, cols, p.0, p.1) then groups[p.0][p.1] else Some(0)
  }

  /**
   * From `before` to `after` the fill gave a group to every cell it newly processed
   * (done - processed), changed no other cell and overwrote no known group.
   */
  ghost predicate Settles(rows: int, cols: int, before: Groups, after: Groups, processed: set<Cell>, done: set<Cell>)
  {
    && IsGrid(before, rows, cols) && IsGrid(after, rows, cols)
    && processed <= done <= GridCells(rows, cols)
    && (forall p | p in GridCells(rows, cols) && before[p.0][p.1].Some? :: after[p.0][p.1] == before[p.0][p.1])
    && (forall p | p in GridCells(rows, cols) && p !in done - processed :: after[p.0][p.1] == before[p.0][p.1])
    && (forall p | p in done - processed :: after[p.0][p.1].Some?)
  }

  lemma SettlesTrans(rows: int, cols: int, a: Groups, b: Groups, c: Groups, p0: set<Cell>, p1: set<Cell>, p2: set<Cell>)
    requires Settles(rows, cols, a, b, p0, p1) && Settles(rows, cols, b, c, p1, p2)
    ensures Settles(rows, cols, a, c, p0, p2)
  {
  }

  /** Cell p is on the grid and side d of it is a set border shared with another cell. */
  ghost predicate Crosses(board: Board, bs: seq<BorderStatus>, p: Cell, d: CardinalDirection)
  {
    && IsValidCellIdx(board.rows, board.cols, p.0, p.1)
    && AdjCell(board.rows, board.cols, p.0, p.1, d).Some?
    && 0 <= BorderIdx(board.cols, p.0, p.1, d) < |bs|
    && bs[BorderIdx(board.cols, p.0, p.1, d)] != UNSET
  }

  /** Cell p is on the grid and side d of it has status st. */
  ghost predicate HasSide(board: Board, bs: seq<BorderStatus>, p: Cell, d: CardinalDirection, st: BorderStatus)
  {
    && IsValidCellIdx(board.rows, board.cols, p.0, p.1)
    && 0 <= BorderIdx(board.cols, p.0, p.1, d) < |bs|
    && bs[BorderIdx(board.cols, p.0, p.1, d)] == st
  }

  /** Every set border of a cell of `from` leads to a cell of `done`. */
  ghost predicate Closed(board: Board, bs: seq<BorderStatus>, from: set<Cell>, done: set<Cell>)
  {
    forall p, d | p in from && Crosses(board, bs, p, d) :: AdjCell(board.rows, board.cols, p.0, p.1, d).value in done
  }

  /** If side d of p is a set border, the cell across it is in `done`. */
  ghost predicate Reaches(board: Board, bs: seq<BorderStatus>, p: Cell, d: CardinalDirection, done: set<Cell>)
  {
    Crosses(board, bs, p, d) ==> AdjCell(board.rows, board.cols, p.0, p.1, d).value in done
  }

  lemma ClosedGrow(board: Board, bs: seq<BorderStatus>, d0: set<Cell>, d1: set<Cell>, d2: set<Cell>)
    requires d0 <= d1 <= d2 && Closed(board, bs, d1 - d0, d1) && Closed(board, bs, d2 - d1, d2)
    ensures Closed(board, bs, d2 - d0, d2)
  {
  }

  /**
   * _process(row, col, groupId): nothing for a processed cell; off the grid, InvalidBoard
   * for group 1 and nothing for group 0; otherwise the cell is marked processed, a known
   * group other than groupId raises InvalidBoard, and the cell takes groupId and pushes it
   * across each side and through each corner, in direction order. When it returns, the cell
   * has groupId and every set border of every cell it processed leads to a processed cell.
   */
  method Process(board: Board, processed: set<Cell>, row: int, col: int, groupId: int) returns (done: set<Cell>, r: Result<()>)
    requires board.Valid() && processed <= GridCells(board.rows, board.cols)
    modifies board`cellGroups
    ensures board.Valid()
    ensures Settles(board.rows, board.cols, old(board.cellGroups), board.cellGroups, processed, done)
    ensures r.Err? ==> r.error == InvalidBoard
    ensures r.Ok? ==> Closed(board, board.borders[..], done - processed, done)
    ensures (row, col) in processed ==> r == Ok(()) && done == processed
    ensures !IsValidCellIdx(board.rows, board.cols, row, col) && (row, col) !in processed ==>
              done == processed && (r.Err? <==> groupId == 1)
    ensures IsValidCellIdx(board.rows, board.cols, row, col) && (row, col) !in processed ==>
              && (row, col) in done
              && (old(board.cellGroups[row][col]).Some? && old(board.cellGroups[row][col]) != Some(groupId) ==> r.Err?)
              && (r.Ok? ==> board.cellGroups[row][col] == Some(groupId))
    decreases GridCells(board.rows, board.cols) - processed, 1
  {
    if (row, col) in processed {
      return processed, Ok(());
    }
    if !IsValidCellIdx(board.rows, board.cols, row, col) {
      if groupId == 1 {
        return processed, Err(InvalidBoard);
      }
      return processed, Ok(());
    }
    done := processed + {(row, col)};
    var cur := board.cellGroups[row][col];
    if cur.Some? && cur.value != groupId {
      return done, Err(InvalidBoard);
    }
    board.cellGroups := board.cellGroups[row := board.cellGroups[row][col := Some(groupId)]];
    ghost var mid, d0 := board.cellGroups, done;
    done, r := PushAll(board, done, row, col, groupId);
    SettlesTrans(board.rows, board.cols, old(board.cellGroups), mid, board.cellGroups, processed, d0, done);
    if r.Ok? {
      forall p, d | p in done - processed && Crosses(board, board.borders[..], p, d)
        ensures AdjCell(board.rows, board.cols, p.0, p.1, d).value in done
      {
        if p == (row, col) {
          assert Reaches(board, board.borders[..], p, d, done);
        }
      }
    }
  }

  /**
   * The direction loop of _process, for a cell that has just taken its group: in the order
   * TOP, RIGHT, BOT, LEFT, the push across that side and then through the corner of the same
   * index, stopping at the first InvalidBoard.
   */
  method PushAll(board: Board, processed: set<Cell>, row: int, col: int, groupId: int) returns (done: set<Cell>, r: Result<()>)
    requires board.Valid() && processed <= GridCells(board.rows, board.cols)
    requires (row, col) in processed
    modifies board`cellGroups
    ensures board.Valid()
    ensures Settles(board.rows, board.cols, old(board.cellGroups), board.cellGroups, processed, done)
    ensures r.Err? ==> r.error == InvalidBoard
    ensures r.Ok? ==> Closed(board, board.borders[..], done - processed, done)
    ensures r.Ok? ==> forall d :: Reaches(board, board.borders[..], (row, col), d, done)
    decreases GridCells(board.rows, board.cols) - processed, 4
  {
    ghost var bs := board.borders[..];
    done, r := processed, Ok(());
    for i := 0 to 4
      invariant board.Valid() && board.borders[..] == bs
      invariant Settles(board.rows, board.cols, old(board.cellGroups), board.cellGroups, processed, done)
      invariant r.Ok?
      invariant Closed(board, bs, done - processed, done)
      invariant forall j | 0 <= j < i :: Reaches(board, bs, (row, col), AllCardinal[j], done)
    {
      ghost var before, d0 := board.cellGroups, done;
      done, r := PushBoth(board, done, row, col, i, groupId);
      SettlesTrans(board.rows, board.cols, old(board.cellGroups), before, board.cellGroups, processed, d0, done);
      if r.Err? {
        return;
      }
      ClosedGrow(board, bs, processed, d0, done);
    }
    forall d
      ensures Reaches(board, bs, (row, col), d, done)
    {
      assert AllCardinal[CardinalValue(d)] == d;
    }
  }

  /** One turn of _process's direction loop: the push across side i, then the push through corner i. */
  method PushBoth(board: Board, processed: set<Cell>, row: int, col: int, i: int, groupId: int)
    returns (done: set<Cell>, r: Result<()>)
    requires board.Valid() && processed <= GridCells(board.rows, board.cols)
    requires (row, col) in processed && 0 <= i < 4
    modifies board`cellGroups
    ensures board.Valid()
    ensures Settles(board.rows, board.cols, old(board.cellGroups), board.cellGroups, processed, done)
    ensures r.Err? ==> r.error == InvalidBoard
    ensures r.Ok? ==> Closed(board, board.borders[..], done - processed, done)
    ensures r.Ok? && Crosses(board, board.borders[..], (row, col), AllCardinal[i]) ==> AdjCell(board.rows, board.cols, row, col, AllCardinal[i]).value in done
    decreases GridCells(board.rows, board.cols) - processed, 3
  {
    done, r := PushAcross(board, processed, row, col, AllCardinal[i], groupId);
    if r.Err? {
      return;
    }
    ghost var mid, d1 := board.cellGroups, done;
    done, r := PushCorner(board, done, row, col, i);
    SettlesTrans(board.rows, board.cols, old(board.cellGroups), mid, board.cellGroups, processed, d1, done);
    if r.Ok? {
      ClosedGrow(board, board.borders[..], processed, d1, done);
    }
  }

  /** The push across side d of a processed cell: the same group over BLANK, the other over ACTIVE. */
  method PushAcross(board: Board, processed: set<Cell>, row: int, col: int, d: CardinalDirection, groupId: int)
    returns (done: set<Cell>, r: Result<()>)
    requires board.Valid() && processed <= GridCells(board.rows, board.cols)
    requires (row, col) in processed
    modifies board`cellGroups
    ensures board.Valid()
    ensures Settles(board.rows, board.cols, old(board.cellGroups), board.cellGroups, processed, done)
    ensures r.Err? ==> r.error == InvalidBoard
    ensures r.Ok? ==> Closed(board, board.borders[..], done - processed, done)
    ensures r.Ok? && Crosses(board, board.borders[..], (row, col), d) ==> AdjCell(board.rows, board.cols, row, col, d).value in done
    ensures var adj := AdjCell(board.rows, board.cols, row, col, d);
            adj.Some? && adj.value !in processed && HasSide(board, board.borders[..], (row, col), d, BLANK) ==>
              && ((old(board.cellGroups[adj.value.0][adj.value.1]).Some?
                   && old(board.cellGroups[adj.value.0][adj.value.1]) != Some(groupId)) ==> r.Err?)
              && (r.Ok? ==> board.cellGroups[adj.value.0][adj.value.1] == Some(groupId))
    ensures var adj := AdjCell(board.rows, board.cols, row, col, d);
            adj.Some? && adj.value !in processed && HasSide(board, board.borders[..], (row, col), d, ACTIVE) ==>
              && ((old(board.cellGroups[adj.value.0][adj.value.1]).Some?
                   && old(board.cellGroups[adj.value.0][adj.value.1]) != Some(OtherGroup(groupId))) ==> r.Err?)
              && (r.Ok? ==> board.cellGroups[adj.value.0][adj.value.1] == Some(OtherGroup(groupId)))
    decreases GridCells(board.rows, board.cols) - processed, 2
  {
    CellBordersValid(board.rows, board.cols, row, col);
    var st := board.borders[BorderIdx(board.cols, row, col, d)];
    var adj := AdjCell(board.rows, board.cols, row, col, d);
    if adj.Some? && st == BLANK {
      done, r := Process(board, processed, adj.value.0, adj.value.1, groupId);
    } else if adj.Some? && st == ACTIVE {
      done, r := Process(board, processed, adj.value.0, adj.value.1, OtherGroup(groupId));
    } else {
      done, r := processed, Ok(());
    }
  }

  /**
   * The push through corner i of a processed cell: when the corner's entry is POKE or
   * SMOOTH and one of the two cells sharing the corner has a group (off the grid counts as
   * group 0), the other cell is processed with the other group for POKE and the same group
   * for SMOOTH. The first of the two cells is asked first.
   */
  method PushCorner(board: Board, processed: set<Cell>, row: int, col: int, i: int) returns (done: set<Cell>, r: Result<()>)
    requires board.Valid() && processed <= GridCells(board.rows, board.cols)
    requires (row, col) in processed && 0 <= i < 4
    modifies board`cellGroups
    ensures board.Valid()
    ensures Settles(board.rows, board.cols, old(board.cellGroups), board.cellGroups, processed, done)
    ensures r.Err? ==> r.error == InvalidBoard
    ensures r.Ok? ==> Closed(board, board.borders[..], done - processed, done)
    ensures var (c1, c2) := CornerCells(row, col, AllDiagonal[i]);
            var entry := board.cornerEntries[row][col][i];
            r.Ok? && (entry == POKE || entry == SMOOTH) ==>
              && ((GroupAt(board.rows, board.cols, old(board.cellGroups), c1).Some?
                   && IsValidCellIdx(board.rows, board.cols, c2.0, c2.1)) ==> c2 in done)
              && ((GroupAt(board.rows, board.cols, old(board.cellGroups), c1).None?
                   && GroupAt(board.rows, board.cols, old(board.cellGroups), c2).Some?
                   && IsValidCellIdx(board.rows, board.cols, c1.0, c1.1)) ==> c1 in done)
    decreases GridCells(board.rows, board.cols) - processed, 2
  {
    var entry := board.cornerEntries[row][col][i];
    done, r := processed, Ok(());
    if entry == POKE || entry == SMOOTH {
      var (c1, c2) := CornerCells(row, col, AllDiagonal[i]);
      var g1 := GroupAt(board.rows, board.cols, board.cellGroups, c1);
      var g2 := GroupAt(board.rows, board.cols, board.cellGroups, c2);
      if g1.Some? {
        done, r := Process(board, processed, c2.0, c2.1, if entry == POKE then OtherGroup(g1.value) else g1.value);
      } else if g2.Some? {
        done, r := Process(board, processed, c1.0, c1.1, if entry == POKE then OtherGroup(g2.value) else g2.value);
      }
    }
  }

  /** Side d of p is a set border on the grid edge: updateCellGroups starts its fill there. */
  ghost predicate EdgeSeed(board: Board, bs: seq<BorderStatus>, p: Cell, d: CardinalDirection)
  {
    && IsValidCellIdx(board.rows, board.cols, p.0, p.1)
    && AdjCell(board.rows, board.cols, p.0, p.1, d).None?
    && 0 <= BorderIdx(board.cols, p.0, p.1, d) < |bs|
    && bs[BorderIdx(board.cols, p.0, p.1, d)] != UNSET
  }

  /** If side d of p is set, p is in `done`. */
  ghost predicate Seeded(board: Board, bs: seq<BorderStatus>, p: Cell, d: CardinalDirection, done: set<Cell>)
  {
    0 <= BorderIdx(board.cols, p.0, p.1, d) < |bs| && bs[BorderIdx(board.cols, p.0, p.1, d)] != UNSET ==> p in done
  }

  /** The LEFT side of the first cell and the RIGHT side of the last cell of rows 0..n-1 are seeded. */
  ghost predicate SidesSeeded(board: Board, bs: seq<BorderStatus>, n: int, seeds: set<Cell>)
  {
    forall r0 | 0 <= r0 < n ::
      Seeded(board, bs, (r0, 0), LEFT, seeds) && Seeded(board, bs, (r0, board.cols - 1), RIGHT, seeds)
  }

  /** The TOP side of the first cell and the BOT side of the last cell of columns 0..n-1 are seeded. */
  ghost predicate EndsSeeded(board: Board, bs: seq<BorderStatus>, n: int, seeds: set<Cell>)
  {
    forall c0 | 0 <= c0 < n ::
      Seeded(board, bs, (0, c0), TOP, seeds) && Seeded(board, bs, (board.rows - 1, c0), BOT, seeds)
  }

  lemma SidesSeededGrows(board: Board, bs: seq<BorderStatus>, n: int, s: set<Cell>, t: set<Cell>)
    requires SidesSeeded(board, bs, n, s) && s <= t
    ensures SidesSeeded(board, bs, n, t)
  {
  }

  /** One start of the fill: an edge cell whose outer side d is BLANK is outside (0), ACTIVE inside (1). */
  method Seed(board: Board, processed: set<Cell>, row: int, col: int, d: CardinalDirection) returns (done: set<Cell>, r: Result<()>)
    requires board.Valid() && processed <= GridCells(board.rows, board.cols)
    requires IsValidCellIdx(board.rows, board.cols, row, col)
    modifies board`cellGroups
    ensures board.Valid()
    ensures Settles(board.rows, board.cols, old(board.cellGroups), board.cellGroups, processed, done)
    ensures r.Err? ==> r.error == InvalidBoard
    ensures r.Ok? ==> Closed(board, board.borders[..], done - processed, done)
    ensures r.Ok? ==> Seeded(board, board.borders[..], (row, col), d, done)
    ensures r.Ok? && (row, col) !in processed && HasSide(board, board.borders[..], (row, col), d, BLANK) ==>
              board.cellGroups[row][col] == Some(0)
    ensures r.Ok? && (row, col) !in processed && HasSide(board, board.borders[..], (row, col), d, ACTIVE) ==>
              board.cellGroups[row][col] == Some(1)
  {
    CellBordersValid(board.rows, board.cols, row, col);
    var st := board.borders[BorderIdx(board.cols, row, col, d)];
    if st == BLANK {
      done, r := Process(board, processed, row, col, 0);
    } else if st == ACTIVE {
      done, r := Process(board, processed, row, col, 1);
    } else {
      done, r := processed, Ok(());
    }
  }

  /**
   * updateCellGroups: the fill started from the LEFT and RIGHT sides of the first and last
   * columns, row by row, then from the TOP and BOT sides of the first and last rows, column
   * by column; InvalidBoard propagates. `reached` is the set of cells the fill processed.
   * When it returns, every edge cell whose outer side is set was reached, every reached cell
   * has a group, a set border never separates a reached cell from an unreached one, and no
   * group known before was changed.
   */
  method UpdateCellGroups(board: Board) returns (r: Result<()>, ghost reached: set<Cell>)
    requires board.Valid()
    modifies board`cellGroups
    ensures board.Valid()
    ensures Settles(board.rows, board.cols, old(board.cellGroups), board.cellGroups, {}, reached)
    ensures r.Err? ==> r.error == InvalidBoard
    ensures r.Ok? ==> Closed(board, board.borders[..], reached, reached)
    ensures r.Ok? ==> forall p, d | EdgeSeed(board, board.borders[..], p, d) :: p in reached
  {
    ghost var bs := board.borders[..];
    var done: set<Cell>;
    ghost var seeds: set<Cell>;
    done, seeds, r := SeedColumns(board);
    reached := done;
    if r.Err? {
      return;
    }
    ghost var mid := board.cellGroups;
    ghost var seeds2: set<Cell>;
    done, seeds2, r := SeedRows(board, done, seeds);
    SettlesTrans(board.rows, board.cols, old(board.cellGroups), mid, board.cellGroups, {}, reached, done);
    reached := done;
    if r.Ok? {
      SidesSeededGrows(board, bs, board.rows, seeds, seeds2);
      EdgeSeedsCovered(board, bs, seeds2);
    }
  }

  /**
   * updateCellGroups' first loop: for each row, the fill from the LEFT side of its first
   * cell and then from the RIGHT side of its last cell.
   */
  method SeedColumns(board: Board) returns (done: set<Cell>, ghost seeds: set<Cell>, r: Result<()>)
    requires board.Valid()
    modifies board`cellGroups
    ensures board.Valid()
    ensures Settles(board.rows, board.cols, old(board.cellGroups), board.cellGroups, {}, done)
    ensures r.Err? ==> r.error == InvalidBoard
    ensures r.Ok? ==> Closed(board, board.borders[..], done, done) && seeds <= done
    ensures r.Ok? ==> SidesSeeded(board, board.borders[..], board.rows, seeds)
  {
    ghost var bs := board.borders[..];
    seeds := {};
    done, r := {}, Ok(());
    for row := 0 to board.rows
      invariant board.Valid() && board.borders[..] == bs && r.Ok?
      invariant Settles(board.rows, board.cols, old(board.cellGroups), board.cellGroups, {}, done)
      invariant Closed(board, bs, done, done) && seeds <= done
      invariant SidesSeeded(board, bs, row, seeds)
    {
      ghost var before, d0 := board.cellGroups, done;
      done, r := SeedPair(board, done, (row, 0), LEFT, (row, board.cols - 1), RIGHT);
      SettlesTrans(board.rows, board.cols, old(board.cellGroups), before, board.cellGroups, {}, d0, done);
      if r.Err? {
        return;
      }
      seeds := seeds + SeedCells(board, bs, (row, 0), LEFT, (row, board.cols - 1), RIGHT);
    }
  }

  /**
   * updateCellGroups' second loop: for each column, the fill from the TOP side of its first
   * cell and then from the BOT side of its last cell.
   */
  method SeedRows(board: Board, processed: set<Cell>, ghost seeds0: set<Cell>) returns (done: set<Cell>, ghost seeds: set<Cell>, r: Result<()>)
    requires board.Valid() && processed <= GridCells(board.rows, board.cols)
    requires Closed(board, board.borders[..], processed, processed) && seeds0 <= processed
    modifies board`cellGroups
    ensures board.Valid()
    ensures Settles(board.rows, board.cols, old(board.cellGroups), board.cellGroups, processed, done)
    ensures r.Err? ==> r.error == InvalidBoard
    ensures r.Ok? ==> Closed(board, board.borders[..], done, done) && seeds0 <= seeds <= done
    ensures r.Ok? ==> EndsSeeded(board, board.borders[..], board.cols, seeds)
  {
    ghost var bs := board.borders[..];
    seeds := seeds0;
    done, r := processed, Ok(());
    for col := 0 to board.cols
      invariant board.Valid() && board.borders[..] == bs && r.Ok?
      invariant Settles(board.rows, board.cols, old(board.cellGroups), board.cellGroups, processed, done)
      invariant Closed(board, bs, done, done) && seeds0 <= seeds <= done
      invariant EndsSeeded(board, bs, col, seeds)
    {
      ghost var before, d0 := board.cellGroups, done;
      done, r := SeedPair(board, done, (0, col), TOP, (board.rows - 1, col), BOT);
      SettlesTrans(board.rows, board.cols, old(board.cellGroups), before, board.cellGroups, processed, d0, done);
      if r.Err? {
        return;
      }
      seeds := seeds + SeedCells(board, bs, (0, col), TOP, (board.rows - 1, col), BOT);
    }
  }

  /** The four edge scans between them reach every cell whose outer side is set. */
  lemma EdgeSeedsCovered(board: Board, bs: seq<BorderStatus>, seeds: set<Cell>)
    requires board.rows >= 1 && board.cols >= 1
    requires SidesSeeded(board, bs, board.rows, seeds) && EndsSeeded(board, bs, board.cols, seeds)
    ensures forall p, d | EdgeSeed(board, bs, p, d) :: p in seeds
  {
    forall p, d | EdgeSeed(board, bs, p, d)
      ensures p in seeds
    {
      AdjCellSharesSide(board.rows, board.cols, p.0, p.1, d);
      match d
      case LEFT => assert Seeded(board, bs, (p.0, 0), LEFT, seeds);
      case RIGHT =>
        assert Seeded(board, bs, (p.0, 0), LEFT, seeds);
        assert Seeded(board, bs, (p.0, board.cols - 1), RIGHT, seeds);
      case TOP => assert Seeded(board, bs, (0, p.1), TOP, seeds);
      case BOT =>
        assert Seeded(board, bs, (0, p.1), TOP, seeds);
        assert Seeded(board, bs, (board.rows - 1, p.1), BOT, seeds);
    }
  }

  /** Of the two given cells, those whose given side is set. */
  ghost function SeedCells(board: Board, bs: seq<BorderStatus>, p: Cell, d: CardinalDirection, q: Cell, e: CardinalDirection): (s: set<Cell>)
    ensures Seeded(board, bs, p, d, s) && Seeded(board, bs, q, e, s)
  {
    (if 0 <= BorderIdx(board.cols, p.0, p.1, d) < |bs| && bs[BorderIdx(board.cols, p.0, p.1, d)] != UNSET then {p} else {})
    + (if 0 <= BorderIdx(board.cols, q.0, q.1, e) < |bs| && bs[BorderIdx(board.cols, q.0, q.1, e)] != UNSET then {q} else {})
  }

  /** Two Seeds in a row, as each turn of updateCellGroups' loops makes them. */
  method SeedPair(board: Board, processed: set<Cell>, p: Cell, d: CardinalDirection, q: Cell, e: CardinalDirection)
    returns (done: set<Cell>, r: Result<()>)
    requires board.Valid() && processed <= GridCells(board.rows, board.cols)
    requires IsValidCellIdx(board.rows, board.cols, p.0, p.1) && IsValidCellIdx(board.rows, board.cols, q.0, q.1)
    requires Closed(board, board.borders[..], processed, processed)
    modifies board`cellGroups
    ensures board.Valid()
    ensures Settles(board.rows, board.cols, old(board.cellGroups), board.cellGroups, processed, done)
    ensures r.Err? ==> r.error == InvalidBoard
    ensures r.Ok? ==> Closed(board, board.borders[..], done, done)
    ensures r.Ok? ==> SeedCells(board, board.borders[..], p, d, q, e) <= done
  {
    ghost var bs := board.borders[..];
    done, r := Seed(board, processed, p.0, p.1, d);
    if r.Err? {
      return;
    }
    ClosedGrow(board, bs, {}, processed, done);
    ghost var mid, d1 := board.cellGroups, done;
    done, r := Seed(board, done, q.0, q.1, e);
    SettlesTrans(board.rows, board.cols, old(board.cellGroups), mid, board.cellGroups, processed, d1, done);
    if r.Ok? {
      ClosedGrow(board, bs, {}, d1, done);
    }
  }

  // ---------------------------------------------------------------------------------------
  // checkCellGroupClues: moves from the groups
  // ---------------------------------------------------------------------------------------

  /**
   * Board.getAdjCellGroups, whose body is not part of this model: from the board's groups,
   * the groups of the four cells across the sides of a cell, in TOP, RIGHT, BOT, LEFT order.
   */
  type AdjGroupsRule = f: (Groups, int, int) -> seq<Option<int>>
    | forall g, row, col :: |f(g, row, col)| == 4
    witness (g: Groups, row: int, col: int) => [None, None, None, None]

  /** fromAdj: BLANK between two cells of one group, ACTIVE between different groups. */
  function FromAdj(own: int, adj: int): (st: BorderStatus)
    ensures st != UNSET
    ensures st == BLANK <==> own == adj
  {
    if own == adj then BLANK else ACTIVE
  }

  /** Every listed index is a border of bs. */
  ghost predicate InRange(bs: seq<BorderStatus>, idxs: seq<int>)
  {
    forall k | 0 <= k < |idxs| :: 0 <= idxs[k] < |bs|
  }

  /**
   * The borders a 1-cell sets BLANK, in the order it sets them (idxs and adj in TOP, RIGHT,
   * BOT, LEFT order): with both TOP and BOT groups known, TOP and BOT when they are equal and
   * LEFT and RIGHT when they differ; then the same for the LEFT and RIGHT groups.
   */
  function OneCellTargets(idxs: seq<int>, adj: seq<Option<int>>): (t: seq<int>)
    requires |idxs| == 4 && |adj| == 4
    ensures adj[0].Some? && adj[0] == adj[2] ==> idxs[0] in t && idxs[2] in t
    ensures adj[3].Some? && adj[3] == adj[1] ==> idxs[1] in t && idxs[3] in t
    ensures adj[0].Some? && adj[2].Some? && adj[0] != adj[2] ==> idxs[1] in t && idxs[3] in t
    ensures adj[3].Some? && adj[1].Some? && adj[3] != adj[1] ==> idxs[0] in t && idxs[2] in t
    ensures forall x | x in t :: x in idxs
    ensures adj[0].None? && adj[3].None? ==> t == []
  {
    (if adj[0].Some? && adj[2].Some? then (if adj[0] == adj[2] then [idxs[0], idxs[2]] else [idxs[3], idxs[1]]) else [])
    + (if adj[3].Some? && adj[1].Some? then (if adj[3] == adj[1] then [idxs[3], idxs[1]] else [idxs[0], idxs[2]]) else [])
  }

  /**
   * The borders a 3-cell sets ACTIVE, in the order it sets them: a pair of opposite sides
   * whose groups are known and equal, then the pair across from a known pair that differs.
   */
  function ThreeCellTargets(idxs: seq<int>, adj: seq<Option<int>>): (t: seq<int>)
    requires |idxs| == 4 && |adj| == 4
    ensures adj[0].Some? && adj[0] == adj[2] ==> idxs[0] in t && idxs[2] in t
    ensures adj[3].Some? && adj[3] == adj[1] ==> idxs[1] in t && idxs[3] in t
    ensures adj[0].Some? && adj[2].Some? && adj[0] != adj[2] ==> idxs[1] in t && idxs[3] in t
    ensures adj[3].Some? && adj[1].Some? && adj[3] != adj[1] ==> idxs[0] in t && idxs[2] in t
    ensures forall x | x in t :: x in idxs
    ensures adj[0].None? && adj[3].None? ==> t == []
  {
    (if adj[0].Some? && adj[0] == adj[2] then [idxs[0], idxs[2]] else [])
    + (if adj[3].Some? && adj[3] == adj[1] then [idxs[3], idxs[1]] else [])
    + (if adj[0].Some? && adj[2].Some? && adj[0] != adj[2] then [idxs[3], idxs[1]] else [])
    + (if adj[3].Some? && adj[1].Some? && adj[3] != adj[1] then [idxs[0], idxs[2]] else [])
  }

  /** A 2-cell acts when the groups of one pair of opposite sides are known and equal. */
  predicate TwoCellActs(adj: seq<Option<int>>)
    requires |adj| == 4
  {
    (adj[0].Some? && adj[0] == adj[2]) || (adj[3].Some? && adj[3] == adj[1])
  }

  /** initiatePoke towards each corner from index i on, in order; the first InvalidBoard propagates. */
  function PokeAllSpec(board: Board, bs: seq<BorderStatus>, row: int, col: int, i: int): (s: Step)
    requires OnBoard(board, bs) && IsValidCellIdx(board.rows, board.cols, row, col) && 0 <= i <= 4
    ensures |s.0| == |bs|
    decreases 4 - i
  {
    if i == 4 then NoMove(bs)
    else
      var a := InitiatePokeSpec(board, bs, row, col, AllDiagonal[i]);
      if a.1.Err? then a else Join(a, PokeAllSpec(board, a.0, row, col, i + 1))
  }

  /** The clue rules of checkCellGroupClues for a cell with clue reqNum. */
  function GroupClueSpec(board: Board, bs: seq<BorderStatus>, row: int, col: int, adj: seq<Option<int>>): (s: Step)
    requires OnBoard(board, bs) && IsValidCellIdx(board.rows, board.cols, row, col) && |adj| == 4
    ensures |s.0| == |bs|
  {
    CellBorderSeqValid(board.rows, board.cols, row, col);
    var idxs := CellBorderSeq(board.cols, row, col);
    match board.cells[row][col]
    case Some(1) => SetListSpec(bs, OneCellTargets(idxs, adj), BLANK)
    case Some(2) => if TwoCellActs(adj) then PokeAllSpec(board, bs, row, col, 0) else NoMove(bs)
    case Some(3) => SetListSpec(bs, ThreeCellTargets(idxs, adj), ACTIVE)
    case _ => NoMove(bs)
  }

  /**
   * The rule for a cell of known group `own`, from side i on: each side that was UNSET in the
   * cell's snapshot `stats` and whose neighbour's group is known is set by fromAdj; each such
   * side counts as a move whatever setBorder returns.
   */
  function OwnGroupSpec(bs: seq<BorderStatus>, idxs: seq<int>, stats: seq<BorderStatus>, adj: seq<Option<int>>,
                        own: int, i: int): (s: Step)
    requires |idxs| == 4 && |stats| == 4 && |adj| == 4 && InRange(bs, idxs) && 0 <= i <= 4
    ensures |s.0| == |bs|
    decreases 4 - i
  {
    if i == 4 then NoMove(bs)
    else if stats[i] == UNSET && adj[i].Some? then
      var a := SetSpec(bs, idxs[i], FromAdj(own, adj[i].value));
      if a.1.Err? then a
      else
        var rest := OwnGroupSpec(a.0, idxs, stats, adj, own, i + 1);
        if rest.1.Err? then rest else (rest.0, Ok(true))
    else OwnGroupSpec(bs, idxs, stats, adj, own, i + 1)
  }

  /** The indices into a cell's TOP, RIGHT, BOT, LEFT lists of the two sides meeting at corner d. */
  function CornerSides(d: DiagonalDirection): (r: (int, int))
    ensures 0 <= r.0 < 4 && 0 <= r.1 < 4
    ensures AllCardinal[r.0] == (if d.IsUpper() then TOP else BOT)
    ensures AllCardinal[r.1] == (if d.IsLeft() then LEFT else RIGHT)
  {
    (if d.IsUpper() then 0 else 2, if d.IsLeft() then 3 else 1)
  }

  /**
   * The corner rule at corner d: when the two sides meeting there were UNSET in the snapshot
   * and both neighbours' groups are known, handleSmoothCorner for equal groups and
   * initiatePoke for different ones.
   */
  function CornerSpec(board: Board, bs: seq<BorderStatus>, row: int, col: int, stats: seq<BorderStatus>,
                      adj: seq<Option<int>>, d: DiagonalDirection, smooth: SmoothRule): (s: Step)
    requires OnBoard(board, bs) && IsValidCellIdx(board.rows, board.cols, row, col)
    requires |stats| == 4 && |adj| == 4
    ensures |s.0| == |bs|
  {
    var (h, v) := CornerSides(d);
    if stats[h] == UNSET && stats[v] == UNSET && adj[h].Some? && adj[v].Some? then
      (if adj[h] == adj[v] then smooth(bs, row, col, d) else InitiatePokeSpec(board, bs, row, col, d))
    else NoMove(bs)
  }

  /**
   * The corner rule for a cell of unknown group, from corner i on: at a corner whose two
   * sides were UNSET in the snapshot and whose two neighbours' groups are known,
   * handleSmoothCorner when the groups are equal and initiatePoke when they differ.
   */
  function CornerGroupSpec(board: Board, bs: seq<BorderStatus>, row: int, col: int, stats: seq<BorderStatus>,
                           adj: seq<Option<int>>, i: int, smooth: SmoothRule): (s: Step)
    requires OnBoard(board, bs) && IsValidCellIdx(board.rows, board.cols, row, col)
    requires |stats| == 4 && |adj| == 4 && 0 <= i <= 4
    ensures |s.0| == |bs|
    decreases 4 - i
  {
    if i == 4 then NoMove(bs)
    else
      var a := CornerSpec(board, bs, row, col, stats, adj, AllDiagonal[i], smooth);
      if a.1.Err? then a
      else Join(a, CornerGroupSpec(board, a.0, row, col, stats, adj, i + 1, smooth))
  }

  /**
   * checkCellGroupClues on one cell, with the groups after updateCellGroups: nothing for a
   * cell with no UNSET side; otherwise the clue rules, and when they find nothing, the
   * own-group rule for a cell of known group or the corner rule for the others. Both use the
   * sides' statuses as they were before the clue rules ran.
   */
  function CellGroupClueSpec(board: Board, bs: seq<BorderStatus>, groups: Groups, row: int, col: int,
                             adjRule: AdjGroupsRule, smooth: SmoothRule): (s: Step)
    requires OnBoard(board, bs) && IsValidCellIdx(board.rows, board.cols, row, col)
    requires IsGrid(groups, board.rows, board.cols)
    ensures |s.0| == |bs|
  {
    CellBorderSeqValid(board.rows, board.cols, row, col);
    var idxs := CellBorderSeq(board.cols, row, col);
    if CountAt(bs, idxs, UNSET) == 0 then NoMove(bs)
    else
      var adj := adjRule(groups, row, col);
      var clue := GroupClueSpec(board, bs, row, col, adj);
      if clue.1 != Ok(false) then clue
      else if groups[row][col].Some? then OwnGroupSpec(clue.0, idxs, Statuses(bs, idxs), adj, groups[row][col].value, 0)
      else CornerGroupSpec(board, clue.0, row, col, Statuses(bs, idxs), adj, 0, smooth)
  }

  /** The sides of a valid cell, in TOP, RIGHT, BOT, LEFT order: four different borders of bs. */
  function SidesOf(board: Board, bs: seq<BorderStatus>, row: int, col: int): (idxs: seq<int>)
    requires OnBoard(board, bs) && IsValidCellIdx(board.rows, board.cols, row, col)
    ensures |idxs| == 4 && InRange(bs, idxs)
    ensures forall d :: idxs[CardinalValue(d)] == BorderIdx(board.cols, row, col, d)
  {
    CellBorderSeqValid(board.rows, board.cols, row, col);
    CellBorderSeq(board.cols, row, col)
  }

  /** The loop of checkCellGroupClues over the prioritized cells; the first InvalidBoard propagates. */
  function CluesSpec(board: Board, bs: seq<BorderStatus>, groups: Groups, cells: seq<Cell>,
                     adjRule: AdjGroupsRule, smooth: SmoothRule): (s: Step)
    requires OnBoard(board, bs) && IsGrid(groups, board.rows, board.cols)
    requires forall k | 0 <= k < |cells| :: IsValidCellIdx(board.rows, board.cols, cells[k].0, cells[k].1)
    ensures |s.0| == |bs|
    decreases |cells|
  {
    if cells == [] then NoMove(bs)
    else
      var a := CellGroupClueSpec(board, bs, groups, cells[0].0, cells[0].1, adjRule, smooth);
      if a.1.Err? then a else Join(a, CluesSpec(board, a.0, groups, cells[1..], adjRule, smooth))
  }

  // ---------------------------------------------------------------------------------------
  // What the clue rules achieve
  // ---------------------------------------------------------------------------------------

  /** The four sides of a valid cell, in TOP, RIGHT, BOT, LEFT order, are four different borders of bs. */
  lemma SidesDistinct(board: Board, bs: seq<BorderStatus>, row: int, col: int)
    requires OnBoard(board, bs) && IsValidCellIdx(board.rows, board.cols, row, col)
    ensures InRange(bs, CellBorderSeq(board.cols, row, col))
    ensures forall j, k | 0 <= j < k < 4 :: CellBorderSeq(board.cols, row, col)[j] != CellBorderSeq(board.cols, row, col)[k]
  {
    CellBorderSeqValid(board.rows, board.cols, row, col);
    CellBordersValid(board.rows, board.cols, row, col);
    var s := CellBorderSeq(board.cols, row, col);
    assert s[0] == BorderIdx(board.cols, row, col, TOP) && s[1] == BorderIdx(board.cols, row, col, RIGHT);
    assert s[2] == BorderIdx(board.cols, row, col, BOT) && s[3] == BorderIdx(board.cols, row, col, LEFT);
  }

  /**
   * setBorder with status st on each listed border in turn: it raises exactly when a listed
   * border has the other set status, and otherwise the listed borders end with status st and
   * the others keep theirs.
   */
  lemma SetListEffect(bs: seq<BorderStatus>, t: seq<int>, st: BorderStatus)
    requires InRange(bs, t) && st != UNSET
    ensures var s := SetListSpec(bs, t, st);
            && Sound(bs, s)
            && (s.1.Err? <==> exists x | 0 <= x < |bs| && x in t :: bs[x] != UNSET && bs[x] != st)
            && (s.1.Ok? ==> forall x | 0 <= x < |bs| :: s.0[x] == if x in t then st else bs[x])
  {
    SetListSound(bs, t, st);
    assert forall x :: x in t <==> x in (set k | 0 <= k < |t| :: t[k]);
  }

  /**
   * A clue rule of 1- or 3-cells, setting status st on the sides in its target list t: it
   * raises exactly when one of them has the other set status; otherwise every target ends
   * with status st and nothing else changes.
   */
  lemma ClueRuleEffect(bs: seq<BorderStatus>, idxs: seq<int>, t: seq<int>, st: BorderStatus)
    requires |idxs| == 4 && InRange(bs, idxs) && st != UNSET
    requires forall x | x in t :: x in idxs
    ensures InRange(bs, t)
    ensures var s := SetListSpec(bs, t, st);
            && Sound(bs, s)
            && (s.1.Err? <==> exists x | x in t :: bs[x] != UNSET && bs[x] != st)
            && (s.1.Ok? ==> forall x | x in t :: s.0[x] == st)
            && (s.1.Ok? ==> forall x | 0 <= x < |bs| && x !in t :: s.0[x] == bs[x])
  {
    forall k | 0 <= k < |t|
      ensures 0 <= t[k] < |bs|
    {
      assert t[k] in t;
      var j :| 0 <= j < |idxs| && idxs[j] == t[k];
    }
    SetListEffect(bs, t, st);
  }

  lemma {:induction false} PokeAllSound(board: Board, bs: seq<BorderStatus>, row: int, col: int, i: int)
    requires OnBoard(board, bs) && IsValidCellIdx(board.rows, board.cols, row, col) && 0 <= i <= 4
    ensures Sound(bs, PokeAllSpec(board, bs, row, col, i))
    decreases 4 - i
  {
    if i < 4 {
      var a := InitiatePokeSpec(board, bs, row, col, AllDiagonal[i]);
      InitiatePokeSound(board, bs, row, col, AllDiagonal[i]);
      if a.1.Ok? {
        PokeAllSound(board, a.0, row, col, i + 1);
        JoinSound(bs, a, PokeAllSpec(board, a.0, row, col, i + 1));
      }
    }
  }

  /** The clue rules are sound steps. */
  lemma GroupClueSound(board: Board, bs: seq<BorderStatus>, row: int, col: int, adj: seq<Option<int>>)
    requires OnBoard(board, bs) && IsValidCellIdx(board.rows, board.cols, row, col) && |adj| == 4
    ensures Sound(bs, GroupClueSpec(board, bs, row, col, adj))
  {
    CellBorderSeqValid(board.rows, board.cols, row, col);
    var idxs := CellBorderSeq(board.cols, row, col);
    match board.cells[row][col]
    case Some(1) =>
      ClueRuleEffect(bs, idxs, OneCellTargets(idxs, adj), BLANK);
    case Some(2) => PokeAllSound(board, bs, row, col, 0);
    case Some(3) =>
      ClueRuleEffect(bs, idxs, ThreeCellTargets(idxs, adj), ACTIVE);
    case _ =>
  }

  /** The sides the own-group rule sets from side i on. */
  function OwnTargets(idxs: seq<int>, stats: seq<BorderStatus>, adj: seq<Option<int>>, i: int): (t: set<int>)
    requires |idxs| == 4 && |stats| == 4 && |adj| == 4 && 0 <= i <= 4
    ensures forall j | i <= j < 4 && stats[j] == UNSET && adj[j].Some? :: idxs[j] in t
    ensures forall x | x in t :: exists j | i <= j < 4 :: x == idxs[j] && stats[j] == UNSET && adj[j].Some?
  {
    set j | i <= j < 4 && stats[j] == UNSET && adj[j].Some? :: idxs[j]
  }

  /**
   * The own-group rule, from a snapshot that matches the borders: it never raises, every side
   * that was UNSET with a known neighbour group ends BLANK when that group is the cell's own
   * and ACTIVE otherwise, and no other border changes.
   */
  lemma {:induction false} OwnGroupEffect(bs: seq<BorderStatus>, idxs: seq<int>, stats: seq<BorderStatus>,
                                          adj: seq<Option<int>>, own: int, i: int)
    requires |idxs| == 4 && |stats| == 4 && |adj| == 4 && InRange(bs, idxs) && 0 <= i <= 4
    requires forall j, k | 0 <= j < k < 4 :: idxs[j] != idxs[k]
    requires forall j | i <= j < 4 :: stats[j] == bs[idxs[j]]
    ensures var s := OwnGroupSpec(bs, idxs, stats, adj, own, i);
            && Sound(bs, s) && s.1.Ok?
            && (forall j | i <= j < 4 && stats[j] == UNSET && adj[j].Some? :: s.0[idxs[j]] == FromAdj(own, adj[j].value))
            && (forall x | 0 <= x < |bs| && x !in OwnTargets(idxs, stats, adj, i) :: s.0[x] == bs[x])
    decreases 4 - i
  {
    if i < 4 {
      if stats[i] == UNSET && adj[i].Some? {
        var a := SetSpec(bs, idxs[i], FromAdj(own, adj[i].value));
        SetSpecSound(bs, idxs[i], FromAdj(own, adj[i].value));
        OwnGroupEffect(a.0, idxs, stats, adj, own, i + 1);
        var rest := OwnGroupSpec(a.0, idxs, stats, adj, own, i + 1);
        assert a.0 != bs by {
          assert a.0[idxs[i]] != bs[idxs[i]];
        }
        assert rest.0 != bs by {
          assert rest.0[idxs[i]] == a.0[idxs[i]];
        }
      } else {
        OwnGroupEffect(bs, idxs, stats, adj, own, i + 1);
      }
    }
  }

  lemma {:induction false} CornerGroupSound(board: Board, bs: seq<BorderStatus>, row: int, col: int, stats: seq<BorderStatus>,
                                            adj: seq<Option<int>>, i: int, smooth: SmoothRule)
    requires OnBoard(board, bs) && IsValidCellIdx(board.rows, board.cols, row, col)
    requires |stats| == 4 && |adj| == 4 && 0 <= i <= 4
    ensures Sound(bs, CornerGroupSpec(board, bs, row, col, stats, adj, i, smooth))
    decreases 4 - i
  {
    if i < 4 {
      var a := CornerSpec(board, bs, row, col, stats, adj, AllDiagonal[i], smooth);
      InitiatePokeSound(board, bs, row, col, AllDiagonal[i]);
      if a.1.Ok? {
        CornerGroupSound(board, a.0, row, col, stats, adj, i + 1, smooth);
        JoinSound(bs, a, CornerGroupSpec(board, a.0, row, col, stats, adj, i + 1, smooth));
      }
    }
  }

  /**
   * One cell of checkCellGroupClues is a sound step. A cell with no UNSET side is skipped.
   * When the clue rules find nothing for a cell of known group, the cell's UNSET sides with a
   * known neighbour group are set by fromAdj, nothing else changes, and the call does not raise.
   */
  lemma CellGroupClueEffect(board: Board, bs: seq<BorderStatus>, groups: Groups, row: int, col: int,
                            adjRule: AdjGroupsRule, smooth: SmoothRule)
    requires OnBoard(board, bs) && IsValidCellIdx(board.rows, board.cols, row, col)
    requires IsGrid(groups, board.rows, board.cols)
    ensures var s := CellGroupClueSpec(board, bs, groups, row, col, adjRule, smooth);
            && Sound(bs, s)
            && (CountAt(bs, SidesOf(board, bs, row, col), UNSET) == 0 ==> s == (bs, Ok(false)))
    ensures var idxs := SidesOf(board, bs, row, col);
            var adj := adjRule(groups, row, col);
            var s := CellGroupClueSpec(board, bs, groups, row, col, adjRule, smooth);
            CountAt(bs, idxs, UNSET) > 0 && groups[row][col].Some? && GroupClueSpec(board, bs, row, col, adj).1 == Ok(false) ==>
              && s.1.Ok?
              && (forall j | 0 <= j < 4 && bs[idxs[j]] == UNSET && adj[j].Some? ::
                    s.0[idxs[j]] == FromAdj(groups[row][col].value, adj[j].value))
              && (forall j | 0 <= j < 4 && (bs[idxs[j]] != UNSET || adj[j].None?) :: s.0[idxs[j]] == bs[idxs[j]])
  {
    SidesDistinct(board, bs, row, col);
    var idxs := CellBorderSeq(board.cols, row, col);
    if CountAt(bs, idxs, UNSET) > 0 {
      var adj := adjRule(groups, row, col);
      var clue := GroupClueSpec(board, bs, row, col, adj);
      GroupClueSound(board, bs, row, col, adj);
      if clue.1 == Ok(false) {
        assert clue.0 == bs;
        var stats := Statuses(bs, idxs);
        if groups[row][col].Some? {
          OwnGroupEffect(bs, idxs, stats, adj, groups[row][col].value, 0);
        } else {
          CornerGroupSound(board, bs, row, col, stats, adj, 0, smooth);
        }
      }
    }
  }

  /** The whole pass over the prioritized cells is a sound step. */
  lemma {:induction false} CluesSound(board: Board, bs: seq<BorderStatus>, groups: Groups, cells: seq<Cell>,
                                      adjRule: AdjGroupsRule, smooth: SmoothRule)
    requires OnBoard(board, bs) && IsGrid(groups, board.rows, board.cols)
    requires forall k | 0 <= k < |cells| :: IsValidCellIdx(board.rows, board.cols, cells[k].0, cells[k].1)
    ensures Sound(bs, CluesSpec(board, bs, groups, cells, adjRule, smooth))
    decreases |cells|
  {
    if cells != [] {
      var a := CellGroupClueSpec(board, bs, groups, cells[0].0, cells[0].1, adjRule, smooth);
      CellGroupClueEffect(board, bs, groups, cells[0].0, cells[0].1, adjRule, smooth);
      if a.1.Ok? {
        CluesSound(board, a.0, groups, cells[1..], adjRule, smooth);
        JoinSound(bs, a, CluesSpec(board, a.0, groups, cells[1..], adjRule, smooth));
      }
    }
  }

  // ---------------------------------------------------------------------------------------
  // checkCellGroupClues: the methods
  // ---------------------------------------------------------------------------------------

  /** initiatePoke towards each corner of a 2-cell, in declaration order. */
  method PokeAll(board: Board, row: int, col: int) returns (r: Result<bool>)
    requires board.WellFormed() && IsValidCellIdx(board.rows, board.cols, row, col)
    modifies board.borders
    ensures (board.borders[..], r) == PokeAllSpec(board, old(board.borders[..]), row, col, 0)
  {
    ghost var start := board.borders[..];
    var found := false;
    for i := 0 to 4
      invariant PokeAllSpec(board, start, row, col, 0)
                == Join((board.borders[..], Ok(found)), PokeAllSpec(board, board.borders[..], row, col, i))
    {
      r := InitiatePoke(board, row, col, AllDiagonal[i]);
      if r.Err? {
        return;
      }
      found := found || r.value;
    }
    return Ok(found);
  }

  /** The clue rules of checkCellGroupClues for one cell, given its neighbours' groups. */
  method GroupClue(board: Board, row: int, col: int, adj: seq<Option<int>>) returns (r: Result<bool>)
    requires board.WellFormed() && IsValidCellIdx(board.rows, board.cols, row, col) && |adj| == 4
    modifies board.borders
    ensures (board.borders[..], r) == GroupClueSpec(board, old(board.borders[..]), row, col, adj)
  {
    CellBorderSeqValid(board.rows, board.cols, row, col);
    var idxs := CellBorderSeq(board.cols, row, col);
    match board.cells[row][col]
    case Some(1) =>
      ClueRuleEffect(board.borders[..], idxs, OneCellTargets(idxs, adj), BLANK);
      r := SetEach(board, OneCellTargets(idxs, adj), BLANK);
    case Some(2) =>
      if TwoCellActs(adj) {
        r := PokeAll(board, row, col);
      } else {
        r := Ok(false);
      }
    case Some(3) =>
      ClueRuleEffect(board.borders[..], idxs, ThreeCellTargets(idxs, adj), ACTIVE);
      r := SetEach(board, ThreeCellTargets(idxs, adj), ACTIVE);
    case _ =>
      r := Ok(false);
  }

  /**
   * The rule for a cell of known group: fromAdj on each side that was UNSET in the snapshot
   * `stats` and whose neighbour's group is known.
   */
  method OwnGroup(board: Board, idxs: seq<int>, stats: seq<BorderStatus>, adj: seq<Option<int>>, own: int)
    returns (r: Result<bool>)
    requires |idxs| == 4 && |stats| == 4 && |adj| == 4 && InRange(board.borders[..], idxs)
    modifies board.borders
    ensures (board.borders[..], r) == OwnGroupSpec(old(board.borders[..]), idxs, stats, adj, own, 0)
  {
    ghost var start := board.borders[..];
    var found := false;
    for i := 0 to 4
      invariant InRange(board.borders[..], idxs)
      invariant OwnGroupSpec(start, idxs, stats, adj, own, 0)
                == Join((board.borders[..], Ok(found)), OwnGroupSpec(board.borders[..], idxs, stats, adj, own, i))
    {
      if stats[i] == UNSET && adj[i].Some? {
        r := SetBorder.SetBorder(board, idxs[i], FromAdj(own, adj[i].value));
        if r.Err? {
          return;
        }
        found := true;
      }
    }
    return Ok(found);
  }

  /** The corner rule at one corner. */
  method Corner(board: Board, row: int, col: int, stats: seq<BorderStatus>, adj: seq<Option<int>>,
                d: DiagonalDirection, smooth: SmoothRule) returns (r: Result<bool>)
    requires board.WellFormed() && IsValidCellIdx(board.rows, board.cols, row, col)
    requires |stats| == 4 && |adj| == 4
    modifies board.borders
    ensures (board.borders[..], r) == CornerSpec(board, old(board.borders[..]), row, col, stats, adj, d, smooth)
  {
    var (h, v) := CornerSides(d);
    r := Ok(false);
    if stats[h] == UNSET && stats[v] == UNSET && adj[h].Some? && adj[v].Some? {
      if adj[h] == adj[v] {
        r := ApplySmooth(board, row, col, d, smooth);
      } else {
        r := InitiatePoke(board, row, col, d);
      }
    }
  }

  /**
   * The corner rule for a cell of unknown group: at each corner whose two sides were UNSET in
   * the snapshot and whose neighbours' groups are known, handleSmoothCorner when the groups
   * are equal and initiatePoke when they differ.
   */
  method CornerGroup(board: Board, row: int, col: int, stats: seq<BorderStatus>, adj: seq<Option<int>>,
                     smooth: SmoothRule) returns (r: Result<bool>)
    requires board.WellFormed() && IsValidCellIdx(board.rows, board.cols, row, col)
    requires |stats| == 4 && |adj| == 4
    modifies board.borders
    ensures (board.borders[..], r) == CornerGroupSpec(board, old(board.borders[..]), row, col, stats, adj, 0, smooth)
  {
    ghost var start := board.borders[..];
    var found := false;
    for i := 0 to 4
      invariant CornerGroupSpec(board, start, row, col, stats, adj, 0, smooth)
                == Join((board.borders[..], Ok(found)), CornerGroupSpec(board, board.borders[..], row, col, stats, adj, i, smooth))
    {
      r := Corner(board, row, col, stats, adj, AllDiagonal[i], smooth);
      if r.Err? {
        return;
      }
      found := found || r.value;
    }
    return Ok(found);
  }

  /** checkCellGroupClues on one cell, once the groups are up to date. */
  method CellGroupClue(board: Board, row: int, col: int, adjRule: AdjGroupsRule, smooth: SmoothRule)
    returns (r: Result<bool>)
    requires board.WellFormed() && IsValidCellIdx(board.rows, board.cols, row, col)
    modifies board.borders
    ensures (board.borders[..], r)
            == CellGroupClueSpec(board, old(board.borders[..]), board.cellGroups, row, col, adjRule, smooth)
  {
    CellBorderSeqValid(board.rows, board.cols, row, col);
    var idxs := CellBorderSeq(board.cols, row, col);
    var countUnset, countActive, countBlank := GetStatusCount(board, idxs);
    if countUnset == 0 {
      return Ok(false);
    }
    var stats := Statuses(board.borders[..], idxs);
    var adj := adjRule(board.cellGroups, row, col);
    r := GroupClue(board, row, col, adj);
    if r != Ok(false) {
      return;
    }
    var own := board.cellGroups[row][col];
    if own.Some? {
      r := OwnGroup(board, idxs, stats, adj, own.value);
    } else {
      r := CornerGroup(board, row, col, stats, adj, smooth);
    }
  }

  /**
   * checkCellGroupClues: updateCellGroups, whose InvalidBoard propagates before any border
   * changes, then the rules on each prioritized cell in turn. `fill` is the outcome of the
   * flood fill and `reached` the cells it settled.
   */
  method CheckCellGroupClues(board: Board, prioCells: seq<Cell>, adjRule: AdjGroupsRule, smooth: SmoothRule)
    returns (r: Result<bool>, ghost fill: Result<()>, ghost reached: set<Cell>)
    requires board.WellFormed()
    requires forall k | 0 <= k < |prioCells| :: IsValidCellIdx(board.rows, board.cols, prioCells[k].0, prioCells[k].1)
    modifies board`cellGroups, board.borders
    ensures board.WellFormed()
    ensures Settles(board.rows, board.cols, old(board.cellGroups), board.cellGroups, {}, reached)
    ensures fill.Err? ==> r == Err(InvalidBoard) && board.borders[..] == old(board.borders[..])
    ensures fill.Ok? ==> Closed(board, old(board.borders[..]), reached, reached)
    ensures fill.Ok? ==> forall p, d | EdgeSeed(board, old(board.borders[..]), p, d) :: p in reached
    ensures fill.Ok? ==> (board.borders[..], r)
                         == CluesSpec(board, old(board.borders[..]), board.cellGroups, prioCells, adjRule, smooth)
  {
    var filled;
    filled, reached := UpdateCellGroups(board);
    fill := filled;
    if filled.Err? {
      return Err(InvalidBoard), fill, reached;
    }
    ghost var start := board.borders[..];
    ghost var groups := board.cellGroups;
    var found := false;
    for k := 0 to |prioCells|
      invariant board.cellGroups == groups
      invariant CluesSpec(board, start, groups, prioCells, adjRule, smooth)
                == Join((board.borders[..], Ok(found)), CluesSpec(board, board.borders[..], groups, prioCells[k..], adjRule, smooth))
    {
      assert prioCells[k..][1..] == prioCells[k + 1..];
      var one := CellGroupClue(board, prioCells[k].0, prioCells[k].1, adjRule, smooth);
      if one.Err? {
        return one, fill, reached;
      }
      found := found || one.value;
    }
    assert prioCells[|prioCells|..] == [];
    r := Ok(found);
  }
}
