# Slitherlink solver, modelled in Dafny

This project models the core of a Slitherlink solver. A puzzle is a grid of cells, some with a
clue from 0 to 3. Every border between grid vertices is UNSET, ACTIVE (part of the loop) or
BLANK. The solver fills borders until a single closed loop meets every clue.

The model follows the program's own structure, one Dafny module per source file:

- **Values.** `Enums` models border statuses, directions and corner entries, and their integer and
  character conversions. `Outcomes` models the Python exceptions as a `Result`. `BoardTools`
  models the pure border and cell index arithmetic.
- **Board and cell snapshots.** `BoardModel.Board` and `CellInfoModel.CellInfo` are classes. The
  board's border list is an `array`, and the cell groups are a field that the flood fill
  reassigns.
- **Rule engine.** `SetBorder`, `Initial`, `Poke`, `ContUnset`, `CellGroup`, `LoopRule` and `Rules`
  model the deduction rules.
- **Solver.** `Solve` models `_solve` and `simpleValidation`. `Guess` and `SolverModel` model
  guessing and the top-level solver.
- **Older generation.** `LegacyEnums`, `LegacyBoardModel`, `LegacyInit`, `LegacySolver` and
  `LegacySolverTools` model the earlier solver that still sits beside the current one.

Every rule that changes the board is a method that writes the border array. Its `ensures` ties
the new borders and the reported outcome to a specification function of the old borders.
Lemmas then prove what the rule promises:

- it only turns UNSET borders into set ones;
- it reports a move exactly when it changed a border;
- it raises InvalidBoard only where the clue or loop condition is violated;
- it leaves its cell settled as the rule describes.

`_solve` keeps a ghost trace of its passes, so its boolean result is tied to the last pass. A
guess is turned into a move only when a clone holding the guessed status was found invalid; the move then sets the opposite status.

## Model

| member | source | states |
|---|---|---|
| Enums.CardinalValue | src/puzzle/enums.py:17-24 | the integer value of a cardinal direction lies in 0..3 and indexes that direction in TOP, RIGHT, BOT, LEFT order |
| Enums.DiagonalValue | src/puzzle/enums.py:27-34 | the integer value of a diagonal direction lies in 0..3 and indexes that direction in ULEFT, URIGHT, LRIGHT, LLEFT order |
| Enums.OppositeFlipsSides | src/puzzle/enums.py:36-47 | DiagonalDirection.opposite is an involution that swaps both the upper/lower and the left/right side of the corner |
| Enums.CeilingKeepsSide | src/puzzle/enums.py:49-57 | ceiling keeps the left/right side, is idempotent, and leaves a corner unchanged exactly when it is already an upper corner |
| Enums.StatusValue | src/puzzle/enums.py:70-76 | a border status has integer value 0, 1 or 2, and the value is 0 exactly for UNSET |
| Enums.StatusOpposite | src/puzzle/enums.py:78-86 | opposite succeeds exactly for ACTIVE and BLANK and gives the other set status; UNSET raises ValueError |
| Enums.StatusOppositeInvolution | src/puzzle/enums.py:78-86 | taking the opposite twice gives back any set status |
| Enums.StatusFromInt | src/puzzle/enums.py:93-102 | fromInt succeeds exactly on 0, 1 and 2; any other integer raises ValueError |
| Enums.StatusValueRoundTrip | src/puzzle/enums.py:93-102 | fromInt inverts the integer value of every status |
| Enums.DigitValue | src/puzzle/enums.py:88-91 | int() of a one-character string succeeds exactly on a decimal digit and yields 0..9 |
| Enums.StatusFromChar | src/puzzle/enums.py:88-91 | fromChar succeeds exactly on '0', '1' and '2'; every other character raises ValueError |
| Enums.StatusCharRoundTrip | src/puzzle/enums.py:88-102 | fromChar of the digit of a status value gives that status back |
| Enums.StatusNameInjective | src/puzzle/enums.py:104-111 | two statuses print the same name exactly when they are equal |
| Enums.CountTotal | src/puzzle/enums.py:70-76 | every border has exactly one of the three statuses, so the three counts add up to the number of borders |
| Enums.CountZero | src/puzzle/enums.py:70-76 | the count of a status is zero exactly when no border has that status |
| Enums.CornerEntryOppositeInvolution | src/puzzle/enums.py:123-129 | CornerEntry.opposite swaps POKE and SMOOTH, so applying it twice gives back a set entry |
| LegacyEnums.LegacyFromInt | enums.py:23-32 | the older fromInt succeeds exactly on 0, 1 and 2, returns the status with that value, and raises AttributeError otherwise |
| LegacyEnums.LegacyFromChar | enums.py:18-21 | the older fromChar succeeds exactly on '0', '1' and '2'; a non-digit raises ValueError, and a digit goes through fromInt |
| LegacyEnums.LegacyFromIntRoundTrip | enums.py:23-32 | the older fromInt inverts the integer value of every status |
| LegacyEnums.LegacyFromIntAgrees | enums.py:23-32 | the older and newer fromInt accept the same integers and agree on them; only the exception type differs |
| SolveStatsModel.SolveStats.constructor | src/puzzle/solver/solve_stats.py:27-35 | a new record is unsolved, has zero counts and holds no error |
| BoardModel.CellValue | src/puzzle/board.py:74 | a clue character is '.' (no clue) or a decimal digit, and a digit maps to its value; anything else raises ValueError |
| BoardModel.ParseRow | src/puzzle/board.py:72-77 | one row of the clue string parses exactly when all its characters are clue characters, and each cell holds the value of its character |
| BoardModel.ParseCells | src/puzzle/board.py:62-77 | the clue string parses exactly when the size is positive, the length is rows * cols and every character is a clue character; cell (i, j) then holds the value of character i * cols + j |
| BoardModel.ConstructorError | src/puzzle/board.py:35-43 | the call is accepted exactly when the size is positive, no border argument is given and the clues, when given, have the right shape; a non-positive size or misshapen clues raise ValueError, and a border argument raises ValueError when it does not have rows + 1 entries and TypeError otherwise |
| BoardModel.Board.New | src/puzzle/board.py:24-50 | the constructor fails exactly when its checks raise, and otherwise gives a board of that size with the given (or empty) clues and every border UNSET |
| BoardModel.Board.FromString | src/puzzle/board.py:52-79 | fromString succeeds exactly on a positive size with a matching all-clue-character string, and the board's clues are the characters' values in row-major order |
| BoardModel.Board.Copy | src/puzzle/board.py:81-85 | copy always raises ValueError, because the flat border list never has rows + 1 entries |
| BoardModel.Board.DeepCopy | src/puzzle/board.py:81-85 | the copy the docstring promises: a fresh board with the same clues and its own border array holding the same statuses |
| BoardModel.FlatBordersNeverFit | src/puzzle/board.py:42-50 | the length of the flat border list is never rows + 1, so the constructor's border check rejects every list the board itself makes |
| BoardModel.Board.GetBorderIdx | src/puzzle/board.py:106-130 | getBorderIdx is the same index as BoardTools.getBorderIdx for each of the four directions |
| BoardModel.Board.GetBorderStatus | src/puzzle/board.py:91-104 | getBorderStatus follows Python list indexing: an index within the list gives that border, a negative one gives the border that far from the end, and anything else raises IndexError |
| BoardModel.Board.ArmsStatus | src/puzzle/solver/solver.py:353 | the status of each arm at a corner of a cell, in the order of the arms |
| BoardModel.Board.ReqCells | src/puzzle/solver/initial.py:19 | the cells that carry a clue are exactly the positions whose clue is present |
| BoardModel.Board.Reset | src/puzzle/solver/solver.py:117 | reset makes every border UNSET and clears the cell groups, corner entries and pokes |
| BoardModel.Board.Clone | src/puzzle/solver/sub/guess.py:199 | clone gives a fresh board, marked as a clone, with the same clues and a separate border array holding the same statuses |
| CellInfoModel.StatusSetHas | src/puzzle/cell_info.py:99-109 | a border of the cell is in the set collected for a status exactly when its status is that status |
| CellInfoModel.StatusSetSize | src/puzzle/cell_info.py:99-109 | the set collected for a status has as many members as the count for that status |
| CellInfoModel.SnapshotPartition | src/puzzle/cell_info.py:91-109 | the three counts add up to the number of borders, the three sets are disjoint, cover all the borders, and each has the size of its count |
| CellInfoModel.CornerPairs | src/puzzle/cell_info.py:73-77 | the corner pair at each diagonal direction is that corner's vertical and horizontal border |
| CellInfoModel.TallyStatuses | src/puzzle/cell_info.py:91-109 | the loop over the four borders yields the count and the set of borders of each status |
| CellInfoModel.CellInfo.constructor | src/puzzle/cell_info.py:27-52 | a new record has no clue, no group, placeholder indices, four unset borders and empty sets |
| CellInfoModel.CellInfo.GetBorderIndices | src/puzzle/cell_info.py:60-79 | the indices are the cell's four borders and its corner pairs, and a record that already holds them is left unchanged |
| CellInfoModel.CellInfo.GetBorderStats | src/puzzle/cell_info.py:81-111 | the record holds the cell's four border indices, their statuses read from the board, and the counts and sets of those statuses |
| CellInfoModel.CellInfo.Init | src/puzzle/cell_info.py:17-25 | init reads the cell's clue, group, border indices and statuses from the board, whose state it does not change |
| CellInfoModel.CellSnapshotPartition | src/puzzle/cell_info.py:91-109 | the four borders of a valid cell are distinct, so their status sets partition them and have the sizes of the counts |
| LegacyBoardModel.LegacyConstructorError | board.py:32-40 | the older constructor accepts exactly a positive size whose clues and 2-D borders, when given, have the right shape; otherwise ValueError |
| LegacyBoardModel.LegacyBoard.New | board.py:21-47 | the older constructor fails exactly when its checks raise, and otherwise keeps the given or an all-UNSET (rows + 1) by (cols + 1) border grid |
| LegacyBoardModel.LegacyBoard.FromString | board.py:49-76 | the older fromString succeeds exactly on a positive size with a matching all-clue-character string, and reads the clues in row-major order |
| LegacyBoardModel.LegacyBoard.Copy | board.py:78-80 | the older copy returns a new board that shares the same border grid object |
| LegacyBoardModel.LegacyBoard.DeepCopy | board.py:78-80 | a copy as the docstring promises: a fresh border grid with the same statuses |
| LegacyBoardModel.LegacyBoard.GetUnsetBorders | board.py:82-89 | the result lists exactly the UNSET positions of the grid, in row-major order |
| LegacyBoardModel.CopySharesBorders | board.py:78-80 | a write through the shallow copy changes the original's border grid |
| LegacyBoardModel.DeepCopyIsolated | board.py:78-80 | the same write through a deep copy leaves the original's borders unchanged |
| CellInfoModel.StatusSetsCover | src/puzzle/cell_info.py:95-109 | the UNSET, ACTIVE and BLANK sets together are exactly the cell's four borders |
| CellInfoModel.StatusSetsDisjoint | src/puzzle/cell_info.py:95-109 | no border is in two of the UNSET, ACTIVE and BLANK sets |
| BoardTools.RowStartIsProduct | src/puzzle/board_tools.py:127-152 | the start of a grid row's band of borders, built by repeated addition, is (cols * 2 + 1) * row as in getBorderIdx |
| BoardTools.RowStartMono | src/puzzle/board_tools.py:127-152 | the bands of consecutive grid rows follow each other, a full band length apart |
| BoardTools.NumBordersCount | src/puzzle/board_tools.py:83-89 | numBorders counts (rows + 1) rows of horizontal borders and rows rows of vertical ones |
| BoardTools.CellIdxAtAdjCorner | src/puzzle/board_tools.py:91-125 | the cell across a corner is returned exactly when it lies on the grid, and then it is one diagonal step towards that corner |
| BoardTools.AdjCellSharesSide | src/puzzle/solver/tools.py:60 | the neighbour across a side is missing exactly on the matching grid edge, and otherwise its facing side is the same border |
| BoardTools.CellBorders | src/puzzle/board_tools.py:154-171 | getCellBorders gives the cell's TOP, RIGHT, BOT and LEFT border indices in that order |
| BoardTools.CellBorderSeq | src/puzzle/board_tools.py:154-171 | the four border indices of a cell, indexed by the value of each cardinal direction |
| BoardTools.IsBorderHorizontal | src/puzzle/board_tools.py:173-196 | the alternating walk over horizontal and vertical runs decides that a border is horizontal exactly when its offset in its band is below cols |
| BoardTools.HorizontalAt | src/puzzle/board_tools.py:173-196 | at offset m of any band, a border is horizontal exactly when m < cols |
| BoardTools.BandOf | src/puzzle/board_tools.py:173-196 | every non-negative index lies in exactly one band, at an offset below the band length |
| BoardTools.ConnectedBorders | src/puzzle/board_tools.py:198-263 | each endpoint list holds at most three valid borders, none of them the border itself |
| BoardTools.ConnectedBordersList | src/puzzle/board_tools.py:265-280 | getConnectedBordersList holds at most six valid borders, other than the border itself, and exactly those of the two endpoint lists |
| BoardTools.ConnectedCandidates | src/puzzle/board_tools.py:198-263 | each border connected to b is one of the index offsets of b's orientation whose guard holds |
| BoardTools.ConnectedSymmetric | src/puzzle/board_tools.py:198-280 | connection is symmetric: if x touches b at an endpoint, then b is among x's connected borders |
| BoardTools.HorizontalFirstHas | src/puzzle/board_tools.py:198-263 | every valid candidate at the left endpoint of a horizontal border is connected to it |
| BoardTools.HorizontalSecondHas | src/puzzle/board_tools.py:198-263 | every valid candidate at the right endpoint of a horizontal border is connected to it |
| BoardTools.VerticalFirstHas | src/puzzle/board_tools.py:198-263 | every valid candidate at the top endpoint of a vertical border is connected to it |
| BoardTools.VerticalSecondHas | src/puzzle/board_tools.py:198-263 | every valid candidate at the bottom endpoint of a vertical border is connected to it |
| BoardTools.CommonVertex | src/puzzle/board_tools.py:282-294 | getCommonVertex returns a list exactly when the second border touches the first; the list is the first border's endpoint list that holds the second |
| BoardTools.CornerBorderIndices | src/puzzle/board_tools.py:296-325 | the corner's borders are its upper-or-lower side, then its left-or-right side |
| BoardTools.Without | src/puzzle/board_tools.py:327-361 | the filter keeps exactly the members other than the two excluded borders |
| BoardTools.ArmsOfCell | src/puzzle/board_tools.py:363-385 | getArmsOfCell succeeds exactly on a valid cell, giving the arms of each corner, and raises IndexError otherwise |
| BoardTools.ArmsGeometry | src/puzzle/board_tools.py:327-361 | the arms at a corner are the borders that leave the corner's vertex away from the cell: the one above or below and the one beside it, when they exist |
| BoardTools.ArmsBounds | src/puzzle/board_tools.py:327-361 | a corner has at most two arms, at most one on the grid edge, and every arm is a valid border that is not a side of the cell |
| BoardTools.SharedSides | src/puzzle/board_tools.py:127-152 | the bottom of a cell is the top of the cell below, and its right side is the left side of the cell to its right |
| BoardTools.CellBordersValid | src/puzzle/board_tools.py:154-171 | the four sides of a valid cell are valid and distinct borders |
| BoardTools.CellBordersOrientation | src/puzzle/board_tools.py:154-196 | a cell's TOP and BOT borders are horizontal and its LEFT and RIGHT borders are not |
| BoardTools.SideOf | src/puzzle/board_tools.py:127-152 | every valid border is a side of some valid cell |
| BoardTools.NeighbourSide | src/puzzle/board_tools.py:127-152 | a side of a neighbouring cell that runs perpendicular to their shared border is not a side of the first cell |
| SetBorder.SetBorder | src/puzzle/solver/solver.py:88-107 | setBorder writes an UNSET border and reports true, leaves a border that already has the status and reports false, and raises InvalidBoardException on the other set status |
| SetBorder.SetSpecSound | src/puzzle/solver/solver.py:88-107 | setBorder only turns UNSET into a set status, reports a move exactly when it wrote, fails exactly on a conflicting status, and leaves the border with the requested status otherwise |
| SetBorder.SetEach | src/puzzle/solver/solver.py:332-333 | the loop of setBorder calls over a list ends in the state of setting each listed border in turn, and the first conflict propagates |
| SetBorder.SetListSound | src/puzzle/solver/solver.py:625-633 | setting a list is a sound step; it fails exactly when a listed border has the other set status, and otherwise every listed border ends with the new status and nothing else changes |
| SetBorder.BlankUnsetSound | src/puzzle/solver/solver.py:332-333 | blanking a set of UNSET borders is a sound step that reports a move exactly when the set is not empty |
| SetBorder.AssignGrows | src/puzzle/solver/solver.py:88-107 | assigning a set status to borders that are UNSET or already hold it only turns UNSET borders into set ones |
| SetBorder.AllSetGrows | src/puzzle/solver/solver.py:88-107 | because setBorder never undoes a set border, borders that are set stay set as the board grows |
| SetBorder.Join | src/puzzle/solver/solver.py:313-401 | two rule steps in a row end in the second step's state, fail exactly when the second fails, and report a move when either one found a move |
| SetBorder.JoinAssoc | src/puzzle/solver/solver.py:313-401 | chaining three rule steps gives the same result however they are grouped |
| SetBorder.JoinSound | src/puzzle/solver/solver.py:313-401 | two sound rule steps in a row make a sound step |
| SolverTools.GetStatusCount | src/puzzle/solver/tools.py:17-41 | getStatusCount returns the number of UNSET, ACTIVE and BLANK borders among the listed indices, and the three add up to the list length |
| SolverTools.StatusCountTotal | src/puzzle/solver/tools.py:17-41 | each listed border is counted under exactly one status |
| SolverTools.CountAtZero | src/puzzle/solver/tools.py:17-41 | a status count is zero exactly when no listed border has that status |
| SolverTools.CountAtSame | src/puzzle/solver/tools.py:17-41 | two boards that agree on the listed borders give the same counts |
| SolverTools.IsAdjCellReqNumEqualTo | src/puzzle/solver/tools.py:43-63 | false when there is no neighbour across the side; otherwise true exactly when the neighbour's clue equals the query |
| SolverTools.IsContinuous | src/puzzle/solver/tools.py:65-106 | isContinuous holds exactly when both borders are valid and not BLANK, share an endpoint, and every other border at that endpoint is BLANK |
| SolverTools.CheckOthersBlank | src/puzzle/solver/tools.py:100-103 | the loop over the shared endpoint's borders returns true exactly when every border there other than the two is BLANK |
| SolverTools.ContinuousAtVertex | src/puzzle/solver/tools.py:65-106 | two continuous borders are distinct, touch each other, and are the only borders at their shared endpoint that are not BLANK |
| SolverTools.CornerActiveCount | src/puzzle/solver/tools.py:132-134 | a corner of a cell has at most two ACTIVE borders |
| SolverTools.IndirectPoked | src/puzzle/solver/tools.py:108-149 | no cell or a cell off the grid is not poked; a 3-cell is poked; a corner with two ACTIVE borders raises InvalidBoardException |
| SolverTools.PokeChainPokes | src/puzzle/solver/tools.py:108-149 | a diagonal run of 2-cells with clean far corners, ending in a 3-cell or in a corner with one ACTIVE border, makes the propagation report a poke |
| SolverTools.PokedHasChain | src/puzzle/solver/tools.py:108-149 | a reported poke always comes from such a diagonal run |
| Initial.Fill | src/puzzle/solver/initial.py:154-171 | _setBorder on each listed border turns an UNSET one into the status, never overwrites a set border and never fails, and leaves every listed border set |
| Initial.InitSetBorder | src/puzzle/solver/initial.py:154-171 | _setBorder on one border is the fill of that single index |
| Initial.InitFill | src/puzzle/solver/initial.py:66-69 | the loops of _setBorder calls end in the fill of the whole list |
| Initial.FillSnoc | src/puzzle/solver/initial.py:66-69 | filling one more index extends the fill of the list before it |
| Initial.FillStep | src/puzzle/solver/sub/poke.py:89-93 | the loop that calls setBorder only on borders still UNSET never fails and reports a move exactly when some listed border was UNSET |
| Initial.FillStepSound | src/puzzle/solver/sub/poke.py:89-93 | that loop is a sound step |
| Initial.FillUnset | src/puzzle/solver/sub/poke.py:120-123 | the loop's final borders and report are those of the fill step |
| Initial.Outside | src/puzzle/solver/initial.py:52 | the filter keeps, in order, exactly the members that are not in the filter list |
| Initial.Adj3Active | src/puzzle/solver/initial.py:49-64 | the borders activated by a neighbouring 3-cell are the two sides parallel to the shared side, including the shared side |
| Initial.Adj3Blank | src/puzzle/solver/initial.py:49-64 | the borders blanked at the ends of the shared side are valid and belong to neither of the two cells |
| Initial.SetAdj3CellBorders | src/puzzle/solver/initial.py:43-69 | _setAdj3CellBorders activates the parallel pair, then blanks the outer borders at the ends of the shared side |
| Initial.Adj3Step | src/puzzle/solver/initial.py:43-69 | the effect of one neighbouring 3-cell only turns UNSET borders into set ones |
| Initial.Adjacent3 | src/puzzle/solver/initial.py:71-82 | the four neighbours checked in order TOP, RIGHT, BOT, LEFT only turn UNSET borders into set ones |
| Initial.HandleAdjacent3Cells | src/puzzle/solver/initial.py:31-82 | _handleAdjacent3Cells leaves the borders that the four neighbour checks produce in order |
| Initial.HasDiagonal3Cell | src/puzzle/solver/initial.py:133-151 | a reported diagonal 3-cell starts from a clue cell that holds 2 or 3 |
| Initial.Diagonal3AtFound | src/puzzle/solver/initial.py:133-151 | a diagonal run of 2-cells ending in a 3-cell is always found by the recursive search |
| Initial.FoundDiagonal3At | src/puzzle/solver/initial.py:133-151 | the recursive search finds nothing except a diagonal run of 2-cells ending in a 3-cell |
| Initial.Diagonal3AtPrepend | src/puzzle/solver/initial.py:144-151 | a run seen from the next cell, preceded by a 2-cell, is a run one step longer |
| Initial.CornerStep | src/puzzle/solver/initial.py:98-117 | activating a corner's two sides and blanking its arms only turns UNSET borders into set ones |
| Initial.SetCorner | src/puzzle/solver/initial.py:98-117 | _setCorner leaves the corner's two sides filled with ACTIVE and then its arms filled with BLANK |
| Initial.Diagonal3 | src/puzzle/solver/initial.py:119-130 | the four diagonal checks only turn UNSET borders into set ones |
| Initial.HandleDiagonal3Cells | src/puzzle/solver/initial.py:85-130 | _handleDiagonal3Cells settles, in order, the corner facing away from each diagonal that reaches a 3-cell |
| Initial.InitOneCell | src/puzzle/solver/initial.py:20-28 | one pass of solveInit's loop blanks a 0-cell's sides and applies both 3-cell rules to a 3-cell |
| Initial.SolveInit | src/puzzle/solver/initial.py:12-28 | solveInit handles the clue cells in order, and at the end every clue cell is settled |
| Initial.InitCells | src/puzzle/solver/initial.py:12-28 | handling the clue cells one after another only turns UNSET borders into set ones |
| Initial.SettledGrows | src/puzzle/solver/initial.py:154-171 | a settled cell stays settled as more borders are set |
| Initial.Adj3StepSets | src/puzzle/solver/initial.py:43-69 | the adjacent 3-cell rule leaves every border it names set |
| Initial.CornerStepSets | src/puzzle/solver/initial.py:98-117 | the corner rule leaves the corner's two sides and its arms set |
| Initial.Adjacent3Settles | src/puzzle/solver/initial.py:31-82 | after _handleAdjacent3Cells every neighbouring 3-cell has had its pair rule applied |
| Initial.Diagonal3Settles | src/puzzle/solver/initial.py:85-130 | after _handleDiagonal3Cells every diagonal that reaches a 3-cell has its opposite corner set |
| Initial.InitCellSettles | src/puzzle/solver/initial.py:20-28 | handling a clue cell settles it: a 0-cell has all four sides set, and a 3-cell has the borders of each applicable rule set |
| Initial.InitCellsSettled | src/puzzle/solver/initial.py:19-28 | every handled clue cell is still settled at the end, whatever later cells wrote |
| Initial.SolveInitSettles | src/puzzle/solver/initial.py:12-28 | after solveInit every clue cell of the grid is settled |
| Poke.LoneSound | src/puzzle/solver/sub/poke.py:97-103 | the lone-border pattern at a corner is a sound step: it only sets UNSET borders and reports a move exactly when it set one |
| Poke.FirstSetSound | src/puzzle/solver/sub/poke.py:166-168 | setting the listed borders until one reports a move is a sound step |
| Poke.ArmsRuleEffect | src/puzzle/solver/sub/poke.py:82-93 | the arms rule of a poked 3-cell keeps a sound step sound, raises on more than one ACTIVE arm, and with exactly one leaves no arm UNSET |
| Poke.ThreeRuleSound | src/puzzle/solver/sub/poke.py:75-93 | the 3-cell rule on given borders is a sound step |
| Poke.ThreeSound | src/puzzle/solver/sub/poke.py:75-93 | the 3-cell branch of handleCellPoke is a sound step |
| Poke.FallbackSound | src/puzzle/solver/sub/poke.py:95-123 | the general rules at the end of handleCellPoke form a sound step |
| Poke.ClueSound | src/puzzle/solver/sub/poke.py:50-93 | the clue branches of handleCellPoke form a sound step |
| Poke.HandlePokeSound | src/puzzle/solver/sub/poke.py:13-125 | handleCellPoke only turns UNSET borders into set ones and reports a move exactly when it made one |
| Poke.InitiatePokeSound | src/puzzle/solver/sub/poke.py:128-169 | initiatePoke only turns UNSET borders into set ones and reports a move exactly when it made one |
| Poke.SetLone | src/puzzle/solver/sub/poke.py:97-103 | on the board, the lone-border pattern leaves the borders and report of its step |
| Poke.SetFirst | src/puzzle/solver/sub/poke.py:166-168 | the loop over the arms at the grid edge leaves the borders and report of its step, returning at the first move |
| Poke.CollectOtherArms | src/puzzle/solver/sub/poke.py:107-111 | the collected list holds the arms of every corner except the poked one, corner by corner |
| Poke.PokeThree | src/puzzle/solver/sub/poke.py:75-93 | on the board, the 3-cell branch leaves the borders and report of its step |
| Poke.PokeFallback | src/puzzle/solver/sub/poke.py:95-123 | on the board, the general rules leave the borders and report of their step |
| Poke.PokeClue | src/puzzle/solver/sub/poke.py:50-93 | on the board, the clue branches leave the borders and report of their step |
| Poke.HandleCellPoke | src/puzzle/solver/sub/poke.py:13-125 | on the board, handleCellPoke leaves the borders and report of its step, including the recursive pokes it passes on |
| Poke.InitiatePoke | src/puzzle/solver/sub/poke.py:128-169 | on the board, initiatePoke leaves the borders and report of its step |
| Poke.PokeAtActiveCorner | src/puzzle/solver/sub/poke.py:35-48 | an ACTIVE border at the poked corner blanks the other border there and ends the call with a move; two ACTIVE borders there make the board invalid |
| Poke.AfterClue | src/puzzle/solver/sub/poke.py:47-105 | with no ACTIVE border at the poked corner, the call is the clue's rule, then, if that found nothing, the general rules; an exception in the clue's rule ends the call |
| Poke.Poked1Cell | src/puzzle/solver/sub/poke.py:50-58 | a poked 1-cell ends with both borders of the opposite corner BLANK, and an ACTIVE border there makes the board invalid |
| Poke.Poked2Cell | src/puzzle/solver/sub/poke.py:60-72 | a poked 2-cell activates the lone border left at the opposite corner, and always passes the poke on through that corner, whose failure fails the call |
| Poke.Lone2Effect | src/puzzle/solver/sub/poke.py:60-72 | the 2-cell rule on its own: the lone border at the opposite corner, then the poke passed on |
| Poke.ThreeEffect | src/puzzle/solver/sub/poke.py:75-93 | the 3-cell rule on its own leaves the opposite corner ACTIVE, raises on two ACTIVE arms, and with one ACTIVE arm leaves no arm UNSET |
| Poke.Poked3Cell | src/puzzle/solver/sub/poke.py:75-93 | a poked 3-cell ends with both borders of the opposite corner ACTIVE; more than one ACTIVE arm at the poked corner makes the board invalid, and with one no arm there stays UNSET |
| Poke.FallbackParity | src/puzzle/solver/sub/poke.py:105-123 | when only one arm of the other corners is UNSET, the rule sets it so that an odd number of those arms is ACTIVE; otherwise nothing changes |
| Poke.OtherArmsParity | src/puzzle/solver/sub/poke.py:113-123 | the single UNSET arm becomes ACTIVE when the ACTIVE count is even and BLANK when odd, so the ACTIVE count ends odd |
| Poke.FillCountAt | src/puzzle/solver/sub/poke.py:89-93 | filling a set that covers the listed borders leaves none of them UNSET and adds the UNSET ones to the count of the fill status |
| Poke.InitiateAtEdge | src/puzzle/solver/sub/poke.py:160-169 | at the grid edge the corner has at most one arm, so the assertion never fails; a returned move leaves that arm ACTIVE, and a BLANK arm makes the board invalid |
| Poke.ThreeRuleEffect | src/puzzle/solver/sub/poke.py:75-93 | after the 3-cell rule both borders of the opposite corner are ACTIVE unless it raised; more than one ACTIVE arm raises InvalidBoard, and with exactly one no arm stays UNSET |
| ContUnset.GetCornersStatus | src/puzzle/solver/sub/cont_unset.py:166-197 | _getCornersStatus flags each corner, in declaration order, whose two borders are UNSET and whose arms are all BLANK, and counts the flags |
| ContUnset.CornerFlagsIn | src/puzzle/solver/sub/cont_unset.py:184-195 | the loop over the corners gives the flag of each corner in order and the number of flags set |
| ContUnset.FlagsMeaning | src/puzzle/solver/sub/cont_unset.py:166-197 | each flag holds exactly when its corner is continuous UNSET; a count of 0 means no such corner and a count of 4 means all four |
| ContUnset.CountTrueExtremes | src/puzzle/solver/sub/cont_unset.py:184-197 | the count is 0 exactly when no flag is set, and equals the length exactly when every flag is set |
| ContUnset.PairSetSound | src/puzzle/solver/sub/cont_unset.py:87-88 | setting both borders of a corner is a sound step |
| ContUnset.OddCornerEffect | src/puzzle/solver/sub/cont_unset.py:80-90 | handling one flagged corner of a 1-cell or 3-cell, on a return, leaves the pair with the clue's status and reports a move |
| ContUnset.BlankCornerEffect | src/puzzle/solver/sub/cont_unset.py:80-90 | at a 1-cell corner the smooth rule, then the poke, then blanking the pair leave the pair BLANK on a return |
| ContUnset.ActiveCornerEffect | src/puzzle/solver/sub/cont_unset.py:151-162 | at a 3-cell corner the pair is made ACTIVE first and the smooth rule and poke that follow keep it |
| ContUnset.OddCellEffect | src/puzzle/solver/sub/cont_unset.py:65-91 | _process1Cell and _process3Cell report a move exactly when some corner is flagged, and on a return every flagged corner's pair has the clue's status |
| ContUnset.TwoCellEffect | src/puzzle/solver/sub/cont_unset.py:94-132 | _process2Cell reports a move exactly when some corner is flagged and the snapshot has more than one BLANK or ACTIVE border, and then that corner's pair is set accordingly |
| ContUnset.ContUnsetSound | src/puzzle/solver/sub/cont_unset.py:13-62 | the rule only turns UNSET borders into set ones, raises only InvalidBoardException or AssertionError, and a reported move changed the board |
| ContUnset.Changed | src/puzzle/solver/sub/cont_unset.py:80-90 | settling a continuous UNSET corner changes the board |
| ContUnset.ContUnsetOddCell | src/puzzle/solver/sub/cont_unset.py:48-60 | for a 1-cell or 3-cell, four continuous corners raise; otherwise a move is reported exactly when some corner is continuous, and each such pair ends BLANK (1-cell) or ACTIVE (3-cell) |
| ContUnset.ContUnsetTwoCell | src/puzzle/solver/sub/cont_unset.py:48-58 | for a 2-cell, four continuous corners raise; otherwise a move is reported exactly when a corner is continuous and the cell has more than one BLANK or ACTIVE border, and that corner's pair is then set |
| ContUnset.ContUnsetAssertion | src/puzzle/solver/sub/cont_unset.py:26-62 | the closing AssertionError is raised exactly for a clue above 3 on a cell with at least two UNSET borders and one to three continuous corners |
| ContUnset.ApplySmooth | src/puzzle/solver/sub/cont_unset.py:83 | a call of handleSmoothCorner leaves the borders and report of the supplied smooth rule |
| ContUnset.OddCorner | src/puzzle/solver/sub/cont_unset.py:80-90 | on the board, one flagged corner of a 1-cell or 3-cell leaves the borders and report of its step |
| ContUnset.ProcessOddCell | src/puzzle/solver/sub/cont_unset.py:65-91 | on the board, _process1Cell and _process3Cell leave the borders and report of their step |
| ContUnset.Process2Cell | src/puzzle/solver/sub/cont_unset.py:94-132 | on the board, _process2Cell leaves the borders and report of its step |
| ContUnset.CheckCellForContinuousUnsetBorders | src/puzzle/solver/sub/cont_unset.py:13-62 | on the board, the rule leaves the borders and report of its step for the cell's snapshot |
| CellGroup.GridCells | src/puzzle/solver/sub/cell_group.py:149 | the cells of the grid are exactly the valid cell indices |
| CellGroup.OtherGroup | src/puzzle/solver/sub/cell_group.py:166 | the group across an ACTIVE border is 1 for group 0 and 0 for any other group |
| CellGroup.CornerCells | src/puzzle/solver/sub/cell_group.py:121-143 | the two cells sharing a corner are the one above or below and the one to the left or right |
| CellGroup.GroupAt | src/puzzle/solver/sub/cell_group.py:127-143 | the corner rule reads a cell's known group on the grid and group 0 off it |
| CellGroup.Process | src/puzzle/solver/sub/cell_group.py:145-189 | _process does nothing for a processed cell; off the grid it raises for group 1 only; otherwise a different known group raises, the cell takes the group, only newly processed cells change, and every set border of a processed cell leads to a processed cell |
| CellGroup.PushAll | src/puzzle/solver/sub/cell_group.py:159-189 | the direction loop keeps known groups, and on a return every set side of the cell leads to a processed cell |
| CellGroup.PushBoth | src/puzzle/solver/sub/cell_group.py:159-189 | one turn of the direction loop: the push across a side, then the push through a corner, keeping known groups |
| CellGroup.PushAcross | src/puzzle/solver/sub/cell_group.py:160-166 | the push across a side carries the same group over a BLANK border and the other group over an ACTIVE one |
| CellGroup.PushCorner | src/puzzle/solver/sub/cell_group.py:172-189 | at a POKE corner the cell across gets the other group of the known neighbour, at a SMOOTH corner the same group |
| CellGroup.Seed | src/puzzle/solver/sub/cell_group.py:193-215 | an edge cell whose outer side is BLANK takes group 0 and one whose outer side is ACTIVE takes group 1 |
| CellGroup.SeedColumns | src/puzzle/solver/sub/cell_group.py:191-202 | the first loop of updateCellGroups starts the fill from each row's outer LEFT and RIGHT sides |
| CellGroup.SeedRows | src/puzzle/solver/sub/cell_group.py:204-215 | the second loop of updateCellGroups starts the fill from each column's outer TOP and BOT sides |
| CellGroup.SeedPair | src/puzzle/solver/sub/cell_group.py:191-215 | the two fills of one loop turn keep known groups and reach both edge cells whose outer side is set |
| CellGroup.EdgeSeedsCovered | src/puzzle/solver/sub/cell_group.py:191-215 | between them the two loops reach every edge cell whose outer side is set |
| CellGroup.UpdateCellGroups | src/puzzle/solver/sub/cell_group.py:115-215 | updateCellGroups raises only InvalidBoardException, never overwrites a known group, gives a group to every cell it reaches, reaches every edge cell with a set outer side, and every set border of a reached cell leads to a reached cell |
| CellGroup.FromAdj | src/puzzle/solver/sub/cell_group.py:24 | fromAdj gives BLANK exactly between two cells of the same group, and ACTIVE otherwise |
| CellGroup.OneCellTargets | src/puzzle/solver/sub/cell_group.py:48-61 | a 1-cell blanks TOP and BOT when their groups are equal and known, LEFT and RIGHT when those differ, and the same with the roles swapped; only its own sides, and none without known groups |
| CellGroup.ThreeCellTargets | src/puzzle/solver/sub/cell_group.py:69-81 | a 3-cell activates a pair of opposite sides whose known groups are equal, and the other pair when they differ; only its own sides, and none without known groups |
| CellGroup.SetListEffect | src/puzzle/solver/sub/cell_group.py:50-81 | setting a list of sides is sound, fails exactly when one holds the other set status, and otherwise gives exactly the listed sides the status |
| CellGroup.ClueRuleEffect | src/puzzle/solver/sub/cell_group.py:48-81 | a clue rule of a 1-cell or 3-cell fails exactly on a conflicting target side; otherwise every target side has the status and every other border keeps its own |
| CellGroup.PokeAllSound | src/puzzle/solver/sub/cell_group.py:63-67 | poking a 2-cell towards each corner in turn is a sound step |
| CellGroup.GroupClueSound | src/puzzle/solver/sub/cell_group.py:47-81 | the clue rules of checkCellGroupClues are a sound step |
| CellGroup.OwnGroupEffect | src/puzzle/solver/sub/cell_group.py:87-96 | for a cell of known group the rule never raises, each side that was UNSET with a known neighbour group ends BLANK for the same group and ACTIVE for a different one, and no other border changes |
| CellGroup.CornerGroupSound | src/puzzle/solver/sub/cell_group.py:98-110 | the corner rule for a cell of unknown group is a sound step |
| CellGroup.CellGroupClueEffect | src/puzzle/solver/sub/cell_group.py:26-110 | one cell of checkCellGroupClues is sound; a cell without UNSET sides is skipped; when the clue rules find nothing for a cell of known group, each UNSET side with a known neighbour ends as fromAdj gives and the other sides keep their status |
| CellGroup.CluesSound | src/puzzle/solver/sub/cell_group.py:26-112 | the whole pass over the prioritized cells is a sound step |
| CellGroup.PokeAll | src/puzzle/solver/sub/cell_group.py:66-67 | on the board, the four pokes of a 2-cell leave the borders and report of their step |
| CellGroup.GroupClue | src/puzzle/solver/sub/cell_group.py:47-81 | on the board, the clue rules leave the borders and report of their step |
| CellGroup.OwnGroup | src/puzzle/solver/sub/cell_group.py:87-96 | on the board, the own-group rule leaves the borders and report of its step |
| CellGroup.Corner | src/puzzle/solver/sub/cell_group.py:101-110 | on the board, the rule at one corner leaves the borders and report of its step |
| CellGroup.CornerGroup | src/puzzle/solver/sub/cell_group.py:98-110 | on the board, the corner rule over the four corners leaves the borders and report of its step |
| CellGroup.CellGroupClue | src/puzzle/solver/sub/cell_group.py:26-110 | on the board, one cell of checkCellGroupClues leaves the borders and report of its step |
| CellGroup.CheckCellGroupClues | src/puzzle/solver/sub/cell_group.py:15-112 | updateCellGroups runs first and its failure leaves the borders untouched; otherwise the fill is closed and reaches every edge seed, and the borders and report are those of the pass over the prioritized cells |
| LoopRule.IndicesWith | src/puzzle/solver/sub/loop.py:143-150 | the index set of a status holds exactly the borders that have it |
| LoopRule.CollectBorders | src/puzzle/solver/sub/loop.py:143-150 | the first loop of _getBorderGroupDict collects exactly the ACTIVE and exactly the UNSET borders |
| LoopRule.LinksSymmetric | src/puzzle/solver/sub/loop.py:162 | border connection is symmetric: a border is connected to each border connected to it |
| LoopRule.AnchoredAdd | src/puzzle/solver/sub/loop.py:160-161 | adding the start border keeps a labelled set connected to it |
| LoopRule.AnchoredUnion | src/puzzle/solver/sub/loop.py:163-166 | the borders labelled by several recursive calls from one border stay connected to it |
| LoopRule.AnchoredStep | src/puzzle/solver/sub/loop.py:163-166 | what a recursive call labels from a connected ACTIVE border is connected to the caller's border too |
| LoopRule.FreshApart | src/puzzle/solver/sub/loop.py:172-178 | a new component has no connection into the components labelled before it |
| LoopRule.NoneIsolatedFromGroups | src/puzzle/solver/sub/loop.py:176-177 | when every component touches an UNSET border, no closed set of ACTIVE borders is cut off from the UNSET ones |
| LoopRule.Labelling.constructor | src/puzzle/solver/sub/loop.py:152-153 | labelling starts with nothing processed and no labels |
| LoopRule.Labelling.Process | src/puzzle/solver/sub/loop.py:156-169 | _process labels with groupId exactly the unlabelled ACTIVE borders reachable from idx, keeps old labels, and reports whether one of them touches an UNSET border |
| LoopRule.Labelling.ProcessConnected | src/puzzle/solver/sub/loop.py:163-169 | the loop over the connected borders labels what is reachable through them and reports contact with an UNSET border |
| LoopRule.Labelling.Visit | src/puzzle/solver/sub/loop.py:164-168 | one connected border is labelled when ACTIVE and noted when UNSET |
| LoopRule.Labelling.LabelledAll | src/puzzle/solver/sub/loop.py:163-169 | after all connected borders are seen, the new labels are closed under connection, and without a contact none of them touches an UNSET border |
| LoopRule.Labelling.GroupedComplete | src/puzzle/solver/sub/loop.py:171-180 | once every ACTIVE border is labelled, the labels are exactly the connected components |
| LoopRule.Labelling.StartGroup | src/puzzle/solver/sub/loop.py:172-178 | one turn of the outer loop labels a whole component, which is isolated from the UNSET borders when it reports no contact |
| LoopRule.LabelComponents | src/puzzle/solver/sub/loop.py:171-178 | the outer loop raises InvalidBoard exactly for an ACTIVE component that touches no UNSET border while some border is UNSET, and otherwise labels the components |
| LoopRule.GetBorderGroupDict | src/puzzle/solver/sub/loop.py:130-180 | _getBorderGroupDict returns the ACTIVE and UNSET sets and a component id per ACTIVE border, or raises "Loop detected." for an isolated component while a border is UNSET |
| LoopRule.GroupsAreComponents | src/puzzle/solver/sub/loop.py:171-180 | two ACTIVE borders get the same id exactly when they are in one connected component |
| LoopRule.FirstActive | src/puzzle/solver/sub/loop.py:30-37 | the break position is the first ACTIVE border among the ends, or the end of the list |
| LoopRule.FirstActiveAt | src/puzzle/solver/sub/loop.py:30-37 | the break position is the only one with nothing ACTIVE before it and an ACTIVE border at it |
| LoopRule.FirstGroup | src/puzzle/solver/sub/loop.py:28-37 | each end's group is the id of its first ACTIVE border, or None without one |
| LoopRule.LoopMakingByGroups | src/puzzle/solver/sub/loop.py:39 | comparing the two groups is the same as both ends leading into one ACTIVE component |
| LoopRule.LoopMakingBelowNext | src/puzzle/solver/sub/loop.py:26 | the loop-making borders seen so far grow by one UNSET border exactly when it closes a loop |
| LoopRule.BelowNext | src/puzzle/solver/sub/loop.py:26 | the members of a set below i + 1 are those below i and possibly i |
| LoopRule.AssignOneMore | src/puzzle/solver/sub/loop.py:40 | blanking one more border outside the targets is one update of the board |
| LoopRule.BlankIfLoopMaking | src/puzzle/solver/sub/loop.py:26-41 | one turn of the loop blanks border i exactly when it is UNSET and loop-making, and reports that |
| LoopRule.RemoveLoopSound | src/puzzle/solver/sub/loop.py:12-49 | the rule only turns UNSET borders BLANK, reports a move exactly when it blanks one, and raises only InvalidBoard, only while a border is UNSET |
| LoopRule.RemoveLoopMakingMove | src/puzzle/solver/sub/loop.py:12-49 | on the board, removeLoopMakingMove leaves the borders and report of that sound step |
| Rules.Taken | src/puzzle/cell_info.py:17-25 | a snapshot taken from the board describes the cell: its clue and its sides' current statuses |
| Rules.SidesWith | src/puzzle/cell_info.py:81-111 | the sides picked for a status are as many as the snapshot counts, all sides of the cell, and include every side with that status |
| Rules.SidesInRange | src/puzzle/solver/solver.py:332 | every side of a cell's snapshot, and every side it lists for a status, is a border of the board |
| Rules.FillOrRemoveRemainingUnsetBorders | src/puzzle/solver/solver.py:614-636 | on the board, fillOrRemoveRemainingUnsetBorders leaves the borders and report of its step |
| Rules.BlankLastSide | src/puzzle/solver/solver.py:331-334 | on the board, the last UNSET side of a cell with three ACTIVE sides becomes BLANK and the call reports a move |
| Rules.ArmPoke | src/puzzle/solver/solver.py:353-356 | on the board, one corner of a 3-cell with an ACTIVE arm is poked |
| Rules.PokeActiveArms | src/puzzle/solver/solver.py:350-356 | on the board, each corner of a 3-cell with an ACTIVE arm is poked in turn |
| Rules.CheckRequirement | src/puzzle/solver/solver.py:336-356 | on the board, the clue checks raise or fill the cell and poke a 3-cell's active arms |
| Rules.ThreeCorner | src/puzzle/solver/solver.py:363-374 | on the board, a 3-cell whose opposite corner is all UNSET and whose diagonal neighbour is poked by propagation gets both borders of that corner ACTIVE |
| Rules.PokeThreeByPropagation | src/puzzle/solver/solver.py:362-374 | on the board, poke propagation into a 3-cell, corner by corner |
| Rules.TwoCorner | src/puzzle/solver/solver.py:377-386 | on the board, a 2-cell with one BLANK side is poked at a corner whose opposite corner is one UNSET and one BLANK border and whose diagonal neighbour is poked by propagation |
| Rules.PokeTwoByPropagation | src/puzzle/solver/solver.py:376-386 | on the board, poke propagation into a 2-cell, corner by corner |
| Rules.StartPokes | src/puzzle/solver/solver.py:388-392 | on the board, the cell starts a poke at each corner not recorded as poked from which it pokes |
| Rules.ApplyCellRule | src/puzzle/solver/solver.py:358-360 | on the board, the outer-cell poking rule leaves the borders and report it gives |
| Rules.ApplyLaterRules | src/puzzle/solver/solver.py:358-395 | on the board, the rules after the clue checks run in the source's order |
| Rules.ApplyPokeRules | src/puzzle/solver/solver.py:376-395 | on the board, the poke rules and the continuous-UNSET rule run in the source's order |
| Rules.ProcessCell | src/puzzle/solver/solver.py:313-397 | on the board, processCell leaves the borders and report of its step |
| Rules.FindContinuedActive | src/puzzle/solver/solver.py:411-416 | the loop finds exactly whether some connected border is continuous with b and ACTIVE |
| Rules.CheckEnds | src/puzzle/solver/solver.py:418-429 | the endpoint checks fire exactly when an endpoint has two ACTIVE borders or only BLANK ones |
| Rules.ProcessBorder | src/puzzle/solver/solver.py:403-431 | on the board, processBorder leaves the borders and report of its step |
| Rules.ProcessSides | src/puzzle/solver/solver.py:299-305 | processBorder runs on each side not yet processed, and afterwards every side is in the processed set |
| Rules.Visit | src/puzzle/solver/solver.py:294-305 | on the board, one cell of solveClues: processCell on a fresh snapshot, then processBorder on its sides when more than one was UNSET |
| Rules.VisitNext | src/puzzle/solver/solver.py:293-305 | one turn of the loop of solveClues either ends the whole call with its exception or extends the run over the cells so far |
| Rules.SolveClues | src/puzzle/solver/solver.py:286-307 | on the board, solveClues leaves the borders and report of the run over the prioritized cells |
| Rules.CountSettled | src/puzzle/solver/solver.py:625-633 | after settling no side is UNSET, the target status counts the former UNSET sides too, and every other status keeps its count |
| Rules.SidesWithStatus | src/puzzle/solver/solver.py:625-633 | every side picked for a status has that status on the board |
| Rules.SettleEffect | src/puzzle/solver/solver.py:625-633 | setting the UNSET sides of a fresh snapshot is sound, reports a move and settles exactly those sides |
| Rules.FillOrRemoveEffect | src/puzzle/solver/solver.py:614-636 | fillOrRemoveRemainingUnsetBorders never raises and reports a move exactly when the cell has a clue, an UNSET side, and the UNSET sides either complete the clue or are surplus; then they all become ACTIVE or all BLANK |
| Rules.LastSideEffect | src/puzzle/solver/solver.py:331-334 | the last-side shortcut is sound, reports a move and leaves the cell's one UNSET side BLANK |
| Rules.SingleSet | src/puzzle/solver/solver.py:89-107 | setting a list of one border is setBorder on that border |
| Rules.ArmPokesSound | src/puzzle/solver/solver.py:350-356 | poking a 3-cell's active arms is a sound step over any run of corners |
| Rules.RequirementSound | src/puzzle/solver/solver.py:336-356 | the clue checks are sound, raise InvalidBoard for too many ACTIVE sides or too few ACTIVE and UNSET ones, and when they pass the clue is still reachable |
| Rules.ThreeCornerSound | src/puzzle/solver/solver.py:363-374 | poke propagation into a 3-cell at one corner is a sound step |
| Rules.ThreePokedSound | src/puzzle/solver/solver.py:362-374 | poke propagation into a 3-cell over any run of corners is a sound step |
| Rules.TwoPokedSound | src/puzzle/solver/solver.py:376-386 | poke propagation into a 2-cell over any run of corners is a sound step |
| Rules.StartPokesSound | src/puzzle/solver/solver.py:388-392 | the pokes a cell starts are a sound step over any run of corners |
| Rules.JoinReliable | src/puzzle/solver/solver.py:313-397 | two rules in a row that only fill borders and raise only InvalidBoard make one such rule |
| Rules.JoinHonest | src/puzzle/solver/solver.py:313-397 | two rules in a row that only fill borders and report a move only when they made one make one such rule |
| Rules.GrowsBack | src/puzzle/solver/solver.py:89-107 | borders filled in both directions are unchanged |
| Rules.CornersOfSet | src/puzzle/solver/solver.py:394-395 | once every side of a cell is set, none of its corners has two UNSET borders |
| Rules.PokeRulesHonest | src/puzzle/solver/solver.py:376-395 | the poke rules only fill UNSET borders, report a move only when they made one, change nothing outside a 2-cell, and raise AssertionError only for a clue outside 0 to 3 with an UNSET side |
| Rules.LaterRulesHonest | src/puzzle/solver/solver.py:358-395 | the rules after the clue checks keep the same promises as the poke rules |
| Rules.ProcessCellSound | src/puzzle/solver/solver.py:313-397 | processCell only fills UNSET borders, raises only InvalidBoard and reports a move only when it made one |
| Rules.RequirementPassed | src/puzzle/solver/solver.py:336-345 | a clue outside 0 to 3 that passes the clue checks is 4, and then every side of the cell is set |
| Rules.ProcessCellShortcuts | src/puzzle/solver/solver.py:328-334 | four ACTIVE sides raise InvalidBoard with nothing written, and on a board that is not a clone three ACTIVE and one UNSET side end the call with that side BLANK |
| Rules.ContinuesActiveMeaning | src/puzzle/solver/solver.py:411-416 | the loop's test holds exactly when some connected border is ACTIVE and continuous with b |
| Rules.ProcessBorderEffect | src/puzzle/solver/solver.py:403-431 | processBorder never raises and writes at most its border: an UNSET border becomes ACTIVE exactly when it continues an ACTIVE border, and otherwise BLANK exactly when an endpoint has two ACTIVE or only BLANK borders |
| Rules.SidesSound | src/puzzle/solver/solver.py:299-305 | processBorder over the sides of a cell is a sound step |
| Rules.TakenFresh | src/puzzle/cell_info.py:17-25 | a snapshot taken from the board is fresh |
| Rules.VisitSound | src/puzzle/solver/solver.py:294-305 | one cell of solveClues only fills borders, raises only InvalidBoard, and adds only that cell's sides to the processed set |
| Rules.SolveCluesSound | src/puzzle/solver/solver.py:286-307 | solveClues only fills UNSET borders, raises only InvalidBoard and reports a move only when it made one |
| Solve.ApplyBoardRule | src/puzzle/solver/solver.py:270-272 | on the board, solveUsingCornerEntryInfo leaves the borders and report the rule gives |
| Solve.GrowsCount | src/puzzle/solver/solver.py:258-272 | filling borders never adds an UNSET border, and a fill that changes something removes one |
| Solve.ReliableProgress | src/puzzle/solver/solver.py:258-272 | a rule that only fills borders, raises only InvalidBoard and reports a move only when it made one makes progress |
| Solve.ProgressJoin | src/puzzle/solver/solver.py:259-272 | two steps in a row that each make progress make progress together, reporting a move when either did |
| Solve.CluesStep | src/puzzle/solver/solver.py:261-262 | the solveClues call of a pass leaves exactly the borders and result that the clue rules define for the board, its clone flag and its pokes |
| Solve.GroupsStep | src/puzzle/solver/solver.py:264-265 | the checkCellGroupClues call of a pass: the flood fill keeps every known group and gives one to every cell it reached; when it finishes, every edge cell with a set outer side is reached, no set border leads out of the reached cells, and the borders and result are those of the group clue rules on the new groups; when it raises, the borders are unchanged and the result is InvalidBoard |
| Solve.LoopStep | src/puzzle/solver/solver.py:267-268 | the removeLoopMakingMove call of a pass leaves exactly the borders and result of the loop rule |
| Solve.CornerStep | src/puzzle/solver/solver.py:270-272 | on a board that is not a clone, the solveUsingCornerEntryInfo call leaves exactly the borders and result the corner rule gives |
| Solve.Pass | src/puzzle/solver/solver.py:259-272 | one pass is solveClues, checkCellGroupClues, removeLoopMakingMove and, on a board that is not a clone, the corner rule, in turn: the first InvalidBoard ends the pass with the borders left so far; otherwise the pass reports whether any of them found a move |
| Solve.PassProgress | src/puzzle/solver/solver.py:258-272 | every pass makes progress: it only fills borders, raises nothing but InvalidBoard, and a pass that reports a move has removed an UNSET border |
| Solve.RunNext | src/puzzle/solver/solver.py:258-280 | one more pass either continues the loop after a move, ends it with true when no move was found, or ends it with false on InvalidBoard |
| Solve.NextPass | src/puzzle/solver/solver.py:258-272 | one turn of the loop of _solve on a run still going: the pass is recorded, the UNSET borders never grow, and the run goes on after a move with fewer UNSET borders, or ends with true when no move was found, or with false on InvalidBoard |
| Solve.RunBound | src/puzzle/solver/solver.py:258-272 | a run only fills borders, and every pass that found a move removed an UNSET border, so a run makes at most one pass more than the board has UNSET borders |
| Solve.GrowsTrans | src/puzzle/solver/solver.py:258-272 | filling borders twice is one fill |
| Solve.SolveLoop | src/puzzle/solver/solver.py:238-280 | _solve runs passes, each exactly as Pass defines it, until one finds no move, returning true, or until one raises InvalidBoard, returning false; the board ends with the borders and cell groups the last pass left (RunBound then bounds the number of passes by the UNSET borders plus one) |
| Solve.SubsetSameSize | src/puzzle/solver/solver.py:608 | a subset as large as its superset is the superset |
| Solve.SubsetSize | src/puzzle/solver/solver.py:608 | a subset is no larger than its superset |
| Solve.Flood.constructor | src/puzzle/solver/solver.py:594 | the flood starts with no connected border |
| Solve.Flood.AddBorder | src/puzzle/solver/solver.py:596-602 | _addBorder adds idx and every ACTIVE border reachable from it, keeps what was there, and what it adds is closed under connection and connected to idx |
| Solve.Flood.AddConnected | src/puzzle/solver/solver.py:600-602 | the loop of _addBorder adds only ACTIVE borders reachable through the connected borders and closes the set under connection |
| Solve.Flood.Visit | src/puzzle/solver/solver.py:601-602 | one connected border is followed when it is ACTIVE |
| Solve.FloodDecides | src/puzzle/solver/solver.py:604-608 | the flood from an ACTIVE border reaches as many borders as are ACTIVE exactly when the ACTIVE borders form one connected component |
| Solve.CheckClue | src/puzzle/solver/solver.py:547-555 | the checks on one clue cell pass exactly when the clue is not broken |
| Solve.CheckClues | src/puzzle/solver/solver.py:546-555 | the loop over the clue cells passes exactly when no clue is broken |
| Solve.ScanNext | src/puzzle/solver/solver.py:561-571 | one border of the scan: UNSET clears the complete flag, ACTIVE is counted and becomes the start, BLANK changes nothing |
| Solve.ScanBorders | src/puzzle/solver/solver.py:557-587 | the scan passes exactly when every ACTIVE border has good endpoints, and then reports whether no border is UNSET, the number of ACTIVE borders and an ACTIVE start border |
| Solve.SimpleValidation | src/puzzle/solver/solver.py:535-608 | simpleValidation returns exactly the validity the checks define: clues reachable, good endpoints, and on a finished board one connected loop |
| Solve.ActiveSymmetric | src/puzzle/solver/solver.py:600 | connection among the ACTIVE borders of a board is symmetric |
| Solve.AllConnected | src/puzzle/solver/solver.py:593-608 | the last check passes exactly when some border is ACTIVE and the ACTIVE borders form one connected component |
| Solve.ClueSettled | src/puzzle/solver/solver.py:546-555 | with no UNSET side, a clue passes the checks exactly when the cell has exactly that many ACTIVE sides |
| Solve.EndSettled | src/puzzle/solver/solver.py:573-587 | with no UNSET border, an ACTIVE border's endpoints pass the checks exactly when each endpoint continues with exactly one ACTIVE border |
| Solve.FinishedValidates | src/puzzle/solver/solver.py:589-608 | on a board with no UNSET border, simpleValidation passes exactly when the board is solved |
| Guess.SideGuess | src/puzzle/solver/sub/guess.py:281-287 | a side yields a guess only when it is UNSET and the clue is 1 or 3: ACTIVE for a 1-cell and BLANK for a 3-cell |
| Guess.CellGuessesMeaning | src/puzzle/solver/sub/guess.py:280-287 | a guess comes from the first n sides of a cell exactly when one of those sides yields it |
| Guess.CellGuessesFrom | src/puzzle/solver/sub/guess.py:280-287 | a cell's guesses are exactly the guesses its four sides yield |
| Guess.RowGuessesSource | src/puzzle/solver/sub/guess.py:279-287 | every guess from the first n cells of a row comes from one of them |
| Guess.RowGuessesHas | src/puzzle/solver/sub/guess.py:279-287 | every guess of a cell among the first n of a row is in the row's list |
| Guess.GridGuessesSource | src/puzzle/solver/sub/guess.py:278-287 | every guess from the first n rows comes from one of their cells |
| Guess.GridGuessesHas | src/puzzle/solver/sub/guess.py:278-287 | every guess of a cell in the first n rows is in the list |
| Guess.HighPrioMeaning | src/puzzle/solver/sub/guess.py:278-287 | the high-priority list holds exactly the UNSET sides of 1-cells guessed ACTIVE and of 3-cells guessed BLANK |
| Guess.LowPrio | src/puzzle/solver/sub/guess.py:289-292 | the low-priority list holds only UNSET borders the first loop did not reach, each guessed ACTIVE |
| Guess.LowPrioEmpty | src/puzzle/solver/sub/guess.py:289-292 | once the first loop has reached every UNSET border, the low-priority list is empty |
| Guess.SidesDoneNext | src/puzzle/solver/sub/guess.py:280-283 | after a cell, its UNSET sides are in the done set too |
| Guess.SidesDoneRow | src/puzzle/solver/sub/guess.py:279 | past the last cell of a row is the start of the next row |
| Guess.AllSidesDone | src/puzzle/solver/sub/guess.py:278-283 | every border is a side of some cell, so after the first loop every UNSET border is in the done set |
| Guess.CellPass | src/puzzle/solver/sub/guess.py:280-287 | one cell of the first loop yields exactly that cell's guesses and adds its UNSET sides to the done set |
| Guess.RowPass | src/puzzle/solver/sub/guess.py:279-287 | one row of the first loop yields exactly that row's guesses and adds its UNSET sides to the done set |
| Guess.LowPass | src/puzzle/solver/sub/guess.py:289-292 | the second loop yields exactly the low-priority list |
| Guess.GuessableEntries | src/puzzle/solver/sub/guess.py:270-297 | every guess names a border of the board and a set status |
| Guess.GetBorderGuesses | src/puzzle/solver/sub/guess.py:270-297 | the list is a permutation of the high-priority guesses; a move is in it exactly when its border is an UNSET side of a 1-cell guessed ACTIVE or of a 3-cell guessed BLANK |
| Guess.GetConnectedCells | src/puzzle/solver/sub/guess.py:246-268 | _getConnectedCells returns connCells unchanged for a cell already in it; otherwise it adds the cell and only grid cells, and every added cell has its neighbours across BLANK borders in the result |
| Guess.CommittedFills | src/puzzle/solver/sub/guess.py:132-139 | committing a refuted guess fills one UNSET border and removes one UNSET border from the count |
| Guess.ScanningNext | src/puzzle/solver/sub/guess.py:191-216 | one turn of the scan on the guess under the cursor, counting it when its border is UNSET |
| Guess.PassedOverNext | src/puzzle/solver/sub/guess.py:194-216 | one more guess passed over: tried on a clone and found valid when its border is UNSET, skipped otherwise |
| Guess.Guesser.constructor | src/puzzle/solver/sub/guess.py:31-41 | a new guesser holds the board, an empty guess list and the cursor at 0 |
| Guess.Guesser.SolveWithGuess | src/puzzle/solver/sub/guess.py:197-204 | the guess is set on a fresh clone, and the result is that of a run of _solve, pass by pass, on that clone: same clues, marked as a clone, the board's pokes, cell groups and borders with the guess set; the board is left alone |
| Guess.Guesser.TryGuessAt | src/puzzle/solver/sub/guess.py:194-209 | a guess is tried exactly when its border is still UNSET, and then the result is that of a run of _solve on a clone with the guess set; a skipped guess counts as valid |
| Guess.Guesser.ScanGuesses | src/puzzle/solver/sub/guess.py:191-218 | the scan passes over guesses that were skipped or whose run of _solve on a clone ended valid, and stops at the first whose run ended in InvalidBoard, returning its opposite together with that run; it counts exactly the guesses tried |
| Guess.Guesser.GetCorrectMoveByGuessing | src/puzzle/solver/sub/guess.py:183-218 | getCorrectMoveByGuessing leaves the board alone, moves the cursor past the guesses whose runs ended valid onto the one whose run ended in InvalidBoard, or past the end when there is none, and counts the guesses tried |
| Guess.Guesser.GuessBorders | src/puzzle/solver/sub/guess.py:116-144 | guessBorders commits to its UNSET border the opposite of a guess whose run of _solve on a clone ended in InvalidBoard, or leaves the board unchanged with every guess passed over; the guess counts grow by the guesses tried and by one correct guess when one is found |
| Guess.Guesser.Guess | src/puzzle/solver/sub/guess.py:43-62 | guess rebuilds the list only when the cursor is at or past its end, then commits the opposite of a guess refuted by a run of _solve on a clone, or leaves the board unchanged |
| SolverModel.PriorityOf | src/puzzle/solver/solver.py:68-78 | a cell is ranked exactly when its clue is absent or 0 to 3; 1- and 3-cells are high priority, 2-cells medium |
| SolverModel.RankedRowMeaning | src/puzzle/solver/solver.py:67-78 | a row's list of one priority holds exactly that row's cells of that priority, left to right |
| SolverModel.RankedMeaning | src/puzzle/solver/solver.py:66-78 | the list of one priority holds exactly the grid's cells of that priority, in row-major order |
| SolverModel.ThreesInRow | src/puzzle/solver/solver.py:74-75 | the 3-cells found in a row are exactly its cells with clue 3 |
| SolverModel.Threes | src/puzzle/solver/solver.py:66-75 | the 3-cells found in the first n rows are exactly their cells with clue 3 |
| SolverModel.PrioAt | src/puzzle/solver/solver.py:80-83 | each position of the cell order holds a grid cell of the priority of its part, before every later cell of that part |
| SolverModel.PrioOrderMembers | src/puzzle/solver/solver.py:58-83 | the cell order holds exactly the grid cells whose clue is absent or 0 to 3 |
| SolverModel.PrioOrderOrdered | src/puzzle/solver/solver.py:58-83 | the 1- and 3-cells come first, then the 2-cells, then the rest, each part in row-major order, so no cell appears twice |
| SolverModel.PrioOrderCoversAll | src/puzzle/solver/solver.py:58-83 | when every clue is absent or 0 to 3, every grid cell is in the cell order |
| SolverModel.PrioRow | src/puzzle/solver/solver.py:67-78 | one row of the loop appends that row's cells to the list of their priority and adds its 3-cells |
| SolverModel.InvalidInitialSolve | src/puzzle/solver/solver.py:638-664 | invalidInitialSolve marks the solve failed with the message for an incomplete or a complete but invalid board |
| SolverModel.UnsetBorders | src/puzzle/solver/solver.py:194-197 | the collected set holds exactly the UNSET borders |
| SolverModel.PruneUnset | src/puzzle/solver/solver.py:496-498 | the tracked set keeps exactly its members that are still UNSET |
| SolverModel.PrunedExact | src/puzzle/solver/solver.py:496-498 | pruning the UNSET borders of a board against borders that have only been filled since leaves exactly the new UNSET borders |
| SolverModel.NoUnsetLeft | src/puzzle/solver/solver.py:200-202 | an empty set of UNSET borders means no border is UNSET |
| SolverModel.Solver.constructor | src/puzzle/solver/solver.py:23-35 | a new solver holds the board, is not initialized, and has the prioritized cell list and the 3-cells of the board |
| SolverModel.Solver.InitializePrioritizedCellList | src/puzzle/solver/solver.py:58-83 | the cell list becomes the priority order and the board's 3-cells are added to the set |
| SolverModel.Solver.GuessRound | src/puzzle/solver/solver.py:466-493 | one round: when a guess is committed, the borders are the old ones with the opposite of a guess refuted by a run of _solve on a clone, followed by a run of _solve from them whose validity decides between Progressed and Invalid; the round only fills borders, a Progressed round removed an UNSET border, and without a committed guess nothing changes |
| SolverModel.Solver.SolveGuessed | src/puzzle/solver/solver.py:484 | the solve after a committed guess is a run of _solve from the committed borders and groups, which only fills borders |
| SolverModel.Solver.RoundAndPrune | src/puzzle/solver/solver.py:466-498 | one turn of the loop: a round, then, after progress, the tracked set keeps exactly its members still UNSET, which with an exact tracked set are all UNSET borders |
| SolverModel.Solver.GuessLoop | src/puzzle/solver/solver.py:462-502 | the loop only fills borders and, when it leaves to validate, no tracked border is UNSET; with an exact tracked set none at all is |
| SolverModel.Solver.Conclude | src/puzzle/solver/solver.py:504-529 | on the finished board, simpleValidation decides: success marks the stats solved, and on a board with no UNSET border means solved; failure records the invalid-guess message |
| SolverModel.Solver.SolveBoardByGuessing | src/puzzle/solver/solver.py:437-529 | solveBoardByGuessing only fills borders, uses the given stats or fresh ones, and on success the board passes simpleValidation (is solved when the tracked set was exact); otherwise it records one of its two error messages |
| SolverModel.Solver.GuessUntilComplete | src/puzzle/solver/solver.py:462-529 | guessing until the tracked set is empty only fills borders and ends either validated and solved or with one of the two error messages |
| SolverModel.Solver.SolveInitial | src/puzzle/solver/solver.py:113-119 | solveInitial resets the board and leaves exactly the initial deductions on the empty board |
| SolverModel.Solver.SolveBoardFromScratch | src/puzzle/solver/solver.py:168-232 | solveBoardFromScratch reports solved exactly when it reports no error, and then the board has no UNSET border and is solved |
| SolverModel.Solver.AfterInitialSolve | src/puzzle/solver/solver.py:193-232 | after a valid initial solve, the result is solved exactly when it has no error, and then the board is solved |
| LegacyInit.LegacySetBorder | src/puzzle/solver_init.py:169-188 | _setBorder fills an UNSET border and answers true exactly when the border was UNSET or already had the status |
| LegacyInit.FirstConflict | src/puzzle/solver_init.py:86-90 | the first listed border that has the other set status, with every border before it UNSET or already right |
| LegacyInit.SetRun | src/puzzle/solver_init.py:86-90 | the `_success and _setBorder` chain only fills borders and stays true exactly when it started true and no listed border had the other set status |
| LegacyInit.FillSetBorder | src/puzzle/solver_init.py:182-183 | _setBorder on a border that is already set writes nothing |
| LegacyInit.SetBordersWhileOk | src/puzzle/solver_init.py:86-90 | on the board, the `_success and _setBorder` loop leaves the borders and flag of that chain |
| LegacyInit.HasAllGrows | src/puzzle/solver_init.py:86-90 | borders that have their status keep it while the board is only filled |
| LegacyInit.SetRunExact | src/puzzle/solver_init.py:86-90 | a chain that stayed true leaves every listed border with the status |
| LegacyInit.Beside | src/puzzle/solver_init.py:95-105 | the neighbour across a side is the cell above, below, left or right |
| LegacyInit.LegacyAdj3Pair | src/puzzle/solver_init.py:63-91 | _setAdj3CellBorders only fills borders and, when it succeeds, the parallel pair is ACTIVE and the outer borders at the shared side are BLANK |
| LegacyInit.LegacyAdj3Step | src/puzzle/solver_init.py:95-105 | one neighbour check only fills borders and can only keep or clear the flag |
| LegacyInit.LegacyAdjacent3 | src/puzzle/solver_init.py:44-107 | _handleAdjacent3Cells only fills borders and is a successful no-op when no neighbour is a 3-cell of reqCells |
| LegacyInit.LegacyCorner | src/puzzle/solver_init.py:128-149 | _setCorner only fills borders and, when it succeeds, the corner's two sides are ACTIVE and its arms BLANK |
| LegacyInit.LegacyDiagStep | src/puzzle/solver_init.py:153-164 | one diagonal check only fills borders and can only keep or clear the flag |
| LegacyInit.LegacyDiagonal3 | src/puzzle/solver_init.py:110-166 | _handleDiagonallyAdjacent3Cells only fills borders and is a successful no-op when no diagonal cell is a 3-cell of reqCells |
| LegacyInit.LegacyCell | src/puzzle/solver_init.py:26-41 | the loop body for one cell only fills borders |
| LegacyInit.LegacyRun | src/puzzle/solver_init.py:23-41 | the loop over the cells only fills borders and counts at most as many successes as cells |
| LegacyInit.LegacyRunStops | src/puzzle/solver_init.py:30-31 | after the first failed cell the later cells change nothing |
| LegacyInit.LegacySolveInit | src/puzzle/solver_init.py:11-41 | the old solveInit leaves the borders of the loop, returns False when a failure is seen at the top of a later iteration and None otherwise |
| LegacyInit.LegacyOneCell | src/puzzle/solver_init.py:26-41 | on the board, the loop body for one cell leaves the borders and flag of that cell |
| LegacyInit.LegacySetAdj3CellBorders | src/puzzle/solver_init.py:63-91 | on the board, _setAdj3CellBorders leaves the borders and flag of its step |
| LegacyInit.LegacyAdj3Check | src/puzzle/solver_init.py:95-105 | on the board, one neighbour check leaves the borders and flag of its step |
| LegacyInit.LegacyHandleAdjacent3Cells | src/puzzle/solver_init.py:44-107 | on the board, _handleAdjacent3Cells leaves the borders and flag of its step |
| LegacyInit.LegacySetCorner | src/puzzle/solver_init.py:128-149 | on the board, _setCorner leaves the borders and flag of its step |
| LegacyInit.LegacyDiagCheck | src/puzzle/solver_init.py:153-164 | on the board, one diagonal check leaves the borders and flag of its step |
| LegacyInit.LegacyHandleDiagonal3Cells | src/puzzle/solver_init.py:110-166 | on the board, _handleDiagonallyAdjacent3Cells leaves the borders and flag of its step |
| LegacyInit.LegacyAdjacentSettledGrows | src/puzzle/solver_init.py:93-107 | the borders fixed around a 3-cell and its neighbouring 3-cells stay fixed while the board is only filled |
| LegacyInit.LegacyDiagonalSettledGrows | src/puzzle/solver_init.py:151-166 | the corners fixed towards diagonal 3-cells stay fixed while the board is only filled |
| LegacyInit.LegacySettledGrows | src/puzzle/solver_init.py:35-41 | a settled cell stays settled while the board is only filled |
| LegacyInit.LegacyAdjacent3Settles | src/puzzle/solver_init.py:44-107 | a successful _handleAdjacent3Cells leaves, for every neighbouring 3-cell, the parallel pair ACTIVE and the outer borders BLANK |
| LegacyInit.LegacyDiagonal3Settles | src/puzzle/solver_init.py:110-166 | a successful _handleDiagonallyAdjacent3Cells leaves, for every diagonal 3-cell, the far corner's sides ACTIVE and its arms BLANK |
| LegacyInit.LegacyCellSettles | src/puzzle/solver_init.py:26-41 | a cell whose loop body succeeded is settled: a 0-cell has every side BLANK and a 3-cell its pairs and corners fixed |
| LegacyInit.LegacyRunSettled | src/puzzle/solver_init.py:23-41 | when every cell succeeded, every handled cell is settled at the end |
| LegacyInit.SolveInitReporting | src/puzzle/solver_init.py:11-22 | solveInit as documented: the same borders, true exactly when every cell succeeded, and then every cell is settled |
| LegacySolverTools.ValidCount | src/puzzle/solver_tools.py:61-84 | the number of valid indices is at most the length of the list |
| LegacySolverTools.ValidCountAt | src/puzzle/solver_tools.py:61-84 | the number of valid indices with one status is at most the number of valid indices |
| LegacySolverTools.ValidCountTotal | src/puzzle/solver_tools.py:61-84 | invalid indices are skipped, so the UNSET, ACTIVE and BLANK counts add up to the number of valid indices |
| LegacySolverTools.ValidCountAtAllValid | src/puzzle/solver_tools.py:61-84 | on a list of valid indices the legacy count agrees with the newer getStatusCount |
| LegacySolverTools.LegacyGetStatusCount | src/puzzle/solver_tools.py:61-84 | getStatusCount returns the UNSET, ACTIVE and BLANK counts over the valid listed indices, which add up to the number of valid indices |
| LegacySolverTools.CountValidAt | src/puzzle/solver_tools.py:86-117 | the single-status counting loop counts the valid listed indices with that status |
| LegacySolverTools.CountUnset | src/puzzle/solver_tools.py:86-95 | countUnset is the UNSET component of getStatusCount |
| LegacySolverTools.CountActive | src/puzzle/solver_tools.py:97-106 | countActive is the ACTIVE component of getStatusCount |
| LegacySolverTools.CountBlank | src/puzzle/solver_tools.py:108-117 | countBlank is the BLANK component of getStatusCount |
| LegacySolverTools.SideStatuses | src/puzzle/solver_tools.py:18-32 | a cell has four sides, each a border of the board |
| LegacySolverTools.IsCellDone | src/puzzle/solver_tools.py:18-32 | isCellDone holds exactly when no side of the cell is UNSET |
| LegacySolverTools.CellBordersBoolStatus | src/puzzle/solver_tools.py:34-59 | each of the four answers, TOP, RIGHT, BOT, LEFT, is whether that side has the status |
| LegacySolverTools.ShouldFillUpRemainingUnsetBorders | src/puzzle/solver_tools.py:161-180 | the fill test holds exactly when the cell's clue equals its number of sides that are not BLANK |
| LegacySolverTools.ShouldRemoveRemainingUnsetBorders | src/puzzle/solver_tools.py:182-201 | the remove test holds exactly when the cell's clue equals its number of ACTIVE sides |
| LegacySolverTools.FillAndRemoveOnlyWhenDone | src/puzzle/solver_tools.py:161-201 | the two tests hold together only on a cell with no UNSET side, so trying fill before remove loses no move |
| LegacySolverTools.RunsOfShape | src/puzzle/solver_tools.py:224-268 | the decision yields one run of three sides or at most four pairs, made of UNSET sides only, each neighbouring pair continuous |
| LegacySolverTools.ContRunsShape | src/puzzle/solver_tools.py:224-268 | getContinuousUnsetBordersOfCell reports one run of three sides or at most four pairs |
| LegacySolverTools.ContRunsUnset | src/puzzle/solver_tools.py:219-268 | every index it reports is an UNSET side of the cell |
| LegacySolverTools.ContRunsContinuous | src/puzzle/solver_tools.py:224-268 | neighbouring entries of every reported run are continuous borders |
| LegacySolverTools.LegacyContinuousUnsetBordersOfCell | src/puzzle/solver_tools.py:203-268 | on the board, getContinuousUnsetBordersOfCell returns the runs of that decision |
| LegacySolverTools.CornerProtrusionsOf2Cell | src/puzzle/solver_tools.py:318-406 | a cell whose clue is not 2 has no protrusions; otherwise the corners are none, all four or one diagonal pair, closed under opposite |
| LegacySolverTools.ProtrusionsOfSides | src/puzzle/solver_tools.py:372-406 | the decision on the sides is none, all four corners or one diagonal pair |
| LegacySolverTools.CornerSides | src/puzzle/solver_tools.py:372-406 | the two sides meeting at a corner are its upper or lower side and its left or right side |
| LegacySolverTools.SidesBlankTurn | src/puzzle/solver_tools.py:388-404 | with one ACTIVE side that meets a BLANK side, the decision reports one diagonal pair through a corner where an ACTIVE side meets a BLANK one |
| LegacySolverTools.ProtrusionsOfBlankTurn | src/puzzle/solver_tools.py:388-404 | the same on a 2-cell of the board |
| LegacySolverTools.ProtrusionsOfSatisfied2Cell | src/puzzle/solver_tools.py:372-386 | on a 2-cell with exactly two ACTIVE sides the reported corners are exactly those with one ACTIVE border |
| LegacySolverTools.CountOfFour | src/puzzle/solver_tools.py:61-84 | the count of a status among four entries is the sum over the entries |
| LegacySolver.ReportsCompose | src/puzzle/solver.py:98-106 | two steps in a row that only fill borders and report exactly whether they changed one make one such step, reporting the disjunction |
| LegacySolver.OverwriteReports | src/puzzle/solver.py:70-85 | setBorder over borders that are UNSET or already have the status only fills borders and reports exactly whether one changed |
| LegacySolver.FillReports | src/puzzle/solver.py:221-232 | blanking the UNSET ones among the listed borders, reporting whether there were any, is such a step |
| LegacySolver.UnsetSides | src/puzzle/solver.py:122 | the UNSET sides of a cell are borders of the board that are UNSET |
| LegacySolver.UnsetOf4 | src/puzzle/solver.py:122 | the UNSET ones among four border indices are exactly the four that are UNSET |
| LegacySolver.Handle2Reports | src/puzzle/solver.py:205-234 | handle2CellDiagonallyOppositeActiveArms only fills borders and reports exactly whether it changed one |
| LegacySolver.FlattenEntries | src/puzzle/solver.py:144-156 | every entry of the runs of a cell, taken in order, is an UNSET border |
| LegacySolver.FlattenKeeps | src/puzzle/solver.py:144-156 | taking the runs in order keeps every entry of every run |
| LegacySolver.RunsReports | src/puzzle/solver.py:139-168 | the continuous-run rule only fills borders and reports exactly whether it changed one |
| LegacySolver.RunsSpecSets | src/puzzle/solver.py:139-168 | after the continuous-run rule, a 1-cell's runs are BLANK, a 3-cell's runs ACTIVE and the first run of a 2-cell with a BLANK side ACTIVE |
| LegacySolver.FillOrRemoveReports | src/puzzle/solver.py:120-131 | the fill or remove rule only fills borders and reports exactly whether it changed one |
| LegacySolver.CellReports | src/puzzle/solver.py:110-170 | processCell only fills borders and reports exactly whether it changed one |
| LegacySolver.ActiveContinuationInExists | src/puzzle/solver.py:180-186 | the loop's test holds exactly when a listed border is continuous with b and ACTIVE |
| LegacySolver.BorderReports | src/puzzle/solver.py:172-203 | processBorder only fills borders and reports exactly whether it changed one |
| LegacySolver.SidesReports | src/puzzle/solver.py:101-106 | processBorder over the sides of a cell not yet processed only fills borders and reports exactly whether it changed one |
| LegacySolver.ObviousStep | src/puzzle/solver.py:94-106 | one more cell of the pass is that cell's rule and then its unprocessed sides, after the cells before it |
| LegacySolver.ObviousReports | src/puzzle/solver.py:87-108 | a pass of solveObvious only fills UNSET borders, although setBorder could overwrite, and reports a move exactly when the board changed |
| LegacySolver.ArmsValid | src/puzzle/solver.py:214 | every arm of a cell is a border of the board |
| LegacySolver.LegacySolver.constructor | src/puzzle/solver.py:16-43 | a new solver holds the board, every cell, split by whether it has a clue, and each cell's four sides |
| LegacySolver.LegacySolver.SetBorder | src/puzzle/solver.py:70-85 | setBorder writes the status and answers true exactly when the border had another status |
| LegacySolver.LegacySolver.OverwriteEach | src/puzzle/solver.py:122-131 | setBorder on each listed border in turn, true when any call changed its border |
| LegacySolver.LegacySolver.BlankUnset | src/puzzle/solver.py:221-232 | the UNSET ones among the listed borders become BLANK, and the answer is whether there were any |
| LegacySolver.LegacySolver.BlankOppositeArms | src/puzzle/solver.py:218-232 | on the board, one half of the opposite-arms rule leaves the borders and report of its step |
| LegacySolver.LegacySolver.Handle2CellDiagonallyOppositeActiveArms | src/puzzle/solver.py:205-234 | on the board, handle2CellDiagonallyOppositeActiveArms leaves the borders and report of its step |
| LegacySolver.LegacySolver.ProcessCell | src/puzzle/solver.py:110-170 | on the board, processCell leaves the borders and report of its step |
| LegacySolver.LegacySolver.FillOrRemove | src/puzzle/solver.py:120-131 | on the board, the fill or remove rule leaves the borders and report of its step |
| LegacySolver.LegacySolver.ProcessRuns | src/puzzle/solver.py:139-168 | on the board, the continuous-run rule leaves the borders and report of its step |
| LegacySolver.LegacySolver.HasActiveContinuation | src/puzzle/solver.py:180-186 | the loop answers whether some connected border is continuous with b and ACTIVE |
| LegacySolver.LegacySolver.ScanActiveContinuation | src/puzzle/solver.py:181-186 | the loop over a list answers whether one of its borders is continuous with b and ACTIVE |
| LegacySolver.LegacySolver.ApplyCountRules | src/puzzle/solver.py:188-201 | on the board, the counting rules leave the borders and report of their step |
| LegacySolver.LegacySolver.ProcessBorder | src/puzzle/solver.py:172-203 | on the board, processBorder leaves the borders and report of its step |
| LegacySolver.LegacySolver.ProcessNewBorder | src/puzzle/solver.py:103-106 | on the board, processBorder on a side not yet processed in the pass, and nothing on one already processed |
| LegacySolver.LegacySolver.ProcessSides | src/puzzle/solver.py:101-106 | on the board, the border part of one cell of solveObvious leaves the borders and report of its step |
| LegacySolver.LegacySolver.SolveObvious | src/puzzle/solver.py:87-108 | on the board, solveObvious over the cells in the given order leaves the borders and report of the pass |

## Left out

- Rules.CellRule, ContUnset.SmoothRule, Solve.BoardRule: checkOuterCellPoking, handleSmoothCorner and solveUsingCornerEntryInfo have no body in the source. They are parameters that are assumed sound: they only turn UNSET borders into set ones, report a move exactly when they changed something, and raise only InvalidBoard. Solve.SolveLoop terminates by the count of UNSET borders only because of this assumption; there is no fuel bound.
- Rules.PokingRule, CellGroup.AdjGroupsRule: isCellPokingAtDir and getAdjCellGroups have no body in the source. They are parameters. PokingRule is unconstrained; AdjGroupsRule only returns four entries.
- Initial.SolveInit: getCellIdxAtDiagCorner is not defined in the source. BoardTools.CellIdxAtAdjCorner stands in for it in the diagonal 3-cell search, assuming it names the cell diagonally across the corner.
- Poke.HandleCellPoke, Poke.InitiatePoke: the writes of CornerEntry.POKE into the solver's corner-entry table (src/puzzle/solver/sub/poke.py:30-33, 142-143) are not modelled. Only the border writes are, so the corner-entry rule never sees a poke.
- Poke.InitiatePoke: the source defines initiatePoke with five parameters, the solver first (poke.py:128). solver.initiatePoke is that plain function assigned to an attribute (solver.py:37-56). The calls at cont_unset.py:84, 159 and cell_group.py:67, 110 pass four arguments and would raise TypeError. The model performs the intended poke instead.
- ContUnset.SmoothRule: handleSmoothCorner is called with (board, cellInfo, dxn) at cont_unset.py:83, 115, 116, 158 and with (board, row, col, dxn) at cell_group.py:108. The model uses one parameter of type (borders, row, col, direction) for both call sites.
- LegacySolver.LegacySolver.constructor, LegacySolver.UnsetSides, LegacySolver.LegacySolver.SetBorder: the older solver calls board.tools.*, board.setBorderStatus and board.getUnsetBordersOfCell (src/puzzle/solver.py:39-43, 83, 122, 128). The board class beside it defines none of these, so the Python raises AttributeError. The model uses BoardTools, a direct write into the border array and the UNSET sides of the cell.
- LegacyInit, LegacySolverTools: the older src/puzzle/solver_init.py and src/puzzle/solver_tools.py also call board.tools.*, and solver_init.py:185 calls board.setBorderStatus, which the older board does not define either. The model uses BoardTools and a direct write into the border array.
- Initial, Poke, CellGroup, LoopRule, Rules, Solve, Guess, SolverTools: the newer core calls BoardTools methods on the class itself, without an instance: BoardTools.getCellBorders at src/puzzle/solver/initial.py:20, BoardTools.getCornerBorderIndices at src/puzzle/solver/sub/poke.py:37, BoardTools.getConnectedBorders at src/puzzle/solver/sub/loop.py:27, BoardTools.isValidBorderIdx at src/puzzle/solver/tools.py:82, and many more in the same files and in cell_group.py, guess.py and solver/solver.py. src/puzzle/board_tools.py:24-65 defines them as instance methods taking self, so each of these calls would raise TypeError. The model performs the intended computation with the module functions of board_tools.py (the ones whose names start with an underscore) on the board's rows and cols.
- BoardTools.AdjCell: board_tools.py defines no getCellIdxOfAdjCell, which src/puzzle/solver/sub/cell_group.py:161, src/puzzle/solver/sub/guess.py:265 and src/puzzle/solver/tools.py:60 call. AdjCell stands in for it: the in-grid cell across a side, or None on the grid edge. The callers unpack a pair and test both parts for None, so the source would need (None, None) there.
- CellGroup.CheckCellGroupClues, Solve.GroupsStep: when the flood fill of updateCellGroups raises InvalidBoard is not characterised. The contracts state what the groups and borders are when it finishes and that nothing else changes when it raises, but not which boards make it raise.
- LegacySolverTools.RunsOfShape: the older isContinuous (src/puzzle/solver_tools.py:119-159, through getCommonVertex) is modelled by the same adjacency conditions as the newer SolverTools.Continuous.
- BoardModel.ConstructorError: the model takes the border list as a flat sequence. A 2-D border argument, which the docstring allows and src/puzzle/board.py:40-49 stores, cannot be expressed. A flat list of rows + 1 statuses raises TypeError, because a status has no len().
- BoardModel.CellValue: int() also accepts non-ASCII Unicode digits. IsCellChar accepts only '0'..'9' and '.'.
- RecursionError in the recursive poke, flood-fill and cell-group code is not modelled.
- Set iteration order (allCells, activeBorders, unsetBorders) is a sequence chosen by the caller. The board's reqCells set is not: Initial.SolveInit and Solve.SimpleValidation walk the fixed row-major list BoardModel.Board.ReqCells, so the model fixes one of the orders in which Python may iterate that set. random.shuffle in getBorderGuesses is modelled as any permutation; the model keeps the order.
- Time measurement, print and UI updates are not modelled. Neither are SolveStats' totalSolveTime and aveGuessTime, which are computed from times.
- SolveStatsModel.SolveStats.constructor: correctGuessCount is a counter that each committed guess increments. In the source it is the length of the list of guess times, which has the same value.
- Board helpers used by the solver but not defined in src/puzzle/board.py (reset, clone, reqCells, getArmsStatus, getAdjCellGroups, cellGroups, cornerEntries, pokes, isClone) are modelled after their uses.
- src/puzzle/board.py getUnsetBorders (132-139) treats the flat border list as a 2-D grid, and the call would raise TypeError on the first status. It is not modelled; the older board's getUnsetBorders is modelled as LegacyBoardModel.LegacyBoard.GetUnsetBorders.
- src/puzzle/board.py getBordersOfCell (141-142) has only a docstring and returns None. It is not modelled.
- CellInfo.getArms (src/puzzle/cell_info.py:113-124) is not modelled: it only caches BoardTools.getArmsOfCell, which BoardTools models, and returns the statuses unchanged.
- profileFromScratch and profileCurrentBoard (profiling) are not modelled, and neither is initializeSubmoduleMethods (it only wires functions to attributes).
- solveCurrentBoard is not modelled. It ends without a return statement, so it gives None.
- Guessing by cell group is not modelled: guessCellGroup (src/puzzle/solver/sub/guess.py:83-114), getCorrectCellGroupByGuessing (146-181) and getCellGroupGuesses (220-244). _getConnectedCells is modelled as Guess.GetConnectedCells.
- The older solveBoard is not modelled: it calls solveInit with three arguments (TypeError) and relies on timing and print. The older _solve has no body.
- _checkThreeCellLoopMakingMoves (src/puzzle/solver/sub/loop.py:51-128) is not modelled; its only call is commented out.
- The older getCornerProtrusionsOfCell, getCornerProtrusionsOf3Cell, getBoardCornerEntryStatus and getCellCornerEntryStatus (src/puzzle/solver_tools.py:270-317, 408-476) are not modelled.
- The __str__ methods are not modelled, except BorderStatus.__str__, whose names are shown distinct (Enums.StatusNameInjective).

## Findings

| source | as written | input that shows it | evidently intended | confidence | as-written member | corrected member |
|---|---|---|---|---|---|---|
| board.py:78-80 | copy builds a new Board around the same borders list, although the docstring promises a deep copy | copy any board, then set a border through the copy: the original's border changes too | a copy with its own border grid holding the same statuses | not executed | LegacyBoardModel.LegacyBoard.Copy, LegacyBoardModel.CopySharesBorders | LegacyBoardModel.LegacyBoard.DeepCopy, LegacyBoardModel.DeepCopyIsolated |
| src/puzzle/board.py:81-85 | copy hands the flat border list to the constructor, whose check asks for rows + 1 entries, so every call raises ValueError, although the docstring promises a deep copy | any board: its border list has 2 * rows * cols + rows + cols entries, never rows + 1 | a fresh board with the same clues and its own border list holding the same statuses | not executed | BoardModel.Board.Copy | BoardModel.Board.DeepCopy |
| src/puzzle/solver_init.py:11-41 | solveInit returns False only when a later cell sees an earlier failure; otherwise it falls off the end and returns None, never True | any board on which every cell succeeds gives None; a board whose only failing cell is the last one also gives None | True when every cell succeeded, False otherwise, as the docstring says | not executed | LegacyInit.LegacySolveInit | LegacyInit.SolveInitReporting |
