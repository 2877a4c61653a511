# Binairo line-elimination solver, in Dafny

A Binairo (Takuzu) puzzle is a square grid of side `n` stored as a row-major
string of `n*n` characters: `'0'`, `'1'`, or `'X'` for an unknown cell. Cell
`(r, c)` sits at index `r*n + c`. The solver keeps two candidate pools, one
for rows and one for columns. Each starts as every legal line, and holds the
legal lines not yet consumed by a check: a check removes a line from its pool
when a fully known line equals it (binairo.py:114-119) or when it is the only
candidate left for a line (binairo.py:126-128). A line is legal when it has
`n` binary digits, no run of three equal digits and exactly `n/2` zeros.

The solver resolves one row or column at a time against its pool:
- a fully known line consumes its own value from the pool;
- a line no candidate agrees with is an error;
- a line with exactly one agreeing candidate becomes that candidate, which leaves the pool;
- a line with several agreeing candidates gets only the unknown cells on which they all agree.

Each changed cell triggers, depth first, a resolution of the crossing line.
`SpecialBinairo` cuts the grid into `subsize`-square blocks. It solves each
block as a puzzle of its own, merges the blocks back into the whole grid,
sweeps the whole grid, and cuts it into blocks again.

Modules:
- `Errors` (`errors.dfy`): the error kinds and `Result`/`Outcome`.
- `Lines` (`lines.dfy`): candidate lines and the generator.
- `Grid` (`grid.dfy`): cell, row, column and block arithmetic on grid strings, and the `Refines` relation. `Refines(g, h)` says that `h` keeps every known cell of `g` and only turns unknowns into digits.
- `Resolver` (`resolver.dfy`): `ResolveLine`, the value-level meaning of resolving one line. It returns the new line, the new pool and the changed positions, or an error.
- `Propagation` (`propagation.dfy`): `_check_row`, `_check_column`, `_iterate_rows`, `_iterate_columns` and `_loop` as functions on a `State`. A state is a grid together with its two pools. A `Run` is the state reached together with `Pass`, or `Fail` with the error raised. The two cascades are mutually recursive and terminate on the measure (X count, remaining indices).
- `Puzzle` (`binairo.dfy`): the class `Binairo`, whose methods update its grid and pools in place. `CheckRow` and `CheckColumn` are proved to compute `ResolveLine`. The methods for `_iterate_rows`, `_iterate_columns` and `_loop` are proved to leave exactly the state, and return exactly the outcome, that the `Propagation` functions give for the old state.
- `Special` (`special.dfy`): the class `SpecialBinairo`, which owns a whole puzzle and an `m`-by-`m` grid of distinct sub-puzzle objects. A round of `solve` is also written on values, as `SpecialRound` on the whole puzzle's state and the grid of subpuzzle states, and `SpecialRounds` iterates it. The methods `Round` and `Solve` are proved to leave exactly the states and return exactly the outcome these functions give.

For size 0 the generator yields no line at all, not the empty line. Python
formats 0 with width 0 as `"0"`, which has one zero rather than 0/2 = 0 of
them. The model follows this behaviour of the code.

## Model

| member | source | states |
|---|---|---|
| Lines.DeterminePossibleLines | binairo.py:81-97 | a line is in the result exactly when size > 0 and the line has size digits, no 000 or 111 and size/2 zeros; the result is strictly ascending in binary value, so it has no duplicates |
| Lines.ValueOfBits | binairo.py:87-88 | formatting i < 2^w with w binary digits and reading the digits back gives i |
| Lines.Format | binairo.py:88 | f"{i:0{w}b}" has w digits (one digit, 0, when w is 0) and reads back as i |
| Lines.BitsOfValue | binairo.py:87-88 | every line of length w is the w-digit formatting of its own value, so the range 0 .. 2^w - 1 reaches every line |
| Puzzle.SideLength | binairo.py:20-23 | Ok exactly when the length is a perfect square, and then the side squared is the length; InvalidSize otherwise |
| Puzzle.SquareInjective | binairo.py:20-25 | a grid length determines its side |
| Puzzle.Binairo.constructor | binairo.py:25-32 | the grid is the given string with its side; a line is in the row pool exactly when it is legal for that side; the column pool equals the row pool |
| Puzzle.Binairo.Copy | binairo.py:11-13 | a copy has the other puzzle's grid and side, and both pools recomputed as every legal line |
| Puzzle.Binairo.Create | binairo.py:20-32 | InvalidSize exactly when the string length is no perfect square; otherwise a fresh valid puzzle holding the string, with full and equal pools |
| Grid.GetItem | binairo.py:42-44 | the pair form of __getitem__, which takes column c and then its character r, is cell (r, c), and also character c of row r |
| Grid.Row | binairo.py:78-79 | row r has n characters and character c of it is cell (r, c) |
| Grid.Column | binairo.py:75-76 | the stride-n slice from c has n characters and character r of it is cell (r, c) |
| Grid.StrideLength | binairo.py:76 | the slice s[::n] of a string whose length is in ((m-1)n, mn] has m characters |
| Grid.StrideElement | binairo.py:76 | character r of s[::n] is s[r*n] |
| Grid.RowColumnCross | binairo.py:75-79 | character c of row r is character r of column c |
| Grid.Block | binairo.py:42-44 | the pair-of-slices read of a k-by-k block has k*k characters, and its cell (i, j) is grid cell (top+i, left+j) |
| Grid.BlockAt | special_binairo.py:13 | block (a, b) has subsize^2 cells, and its cell (i, j) is grid cell (a*subsize+i, b*subsize+j) |
| Grid.WithCell | binairo.py:57-58 | the grid keeps length n*n, cell (r, c) becomes v and every other cell is unchanged |
| Grid.WithRow | binairo.py:67 | the grid keeps length n*n, row r becomes the line and every other cell is unchanged |
| Grid.WithColumn | binairo.py:163-172 | writing a line into column c cell by cell keeps the length, makes column c the line and leaves every other cell unchanged |
| Grid.RefinesByCells | binairo.py:129-139 | a grid whose every cell keeps its digit or turns an X into a digit is a refinement |
| Grid.RefinesWithRow | binairo.py:125-141 | writing a refinement of row r back into the grid refines the grid |
| Grid.RefinesWithColumn | binairo.py:159-175 | writing a refinement of column c back into the grid refines the grid |
| Grid.RowsDetermineGrid | binairo.py:125-141 | a grid whose row r is the line and whose other rows are those of g is exactly g with row r replaced |
| Grid.ColumnsDetermineGrid | binairo.py:159-175 | the same for a column |
| Grid.RowWritten | binairo.py:125-141 | a grid that reads a refinement of row r there and the old cells elsewhere refines the old grid; its row r is the line, and its other rows are the old ones |
| Grid.ColumnWritten | binairo.py:159-175 | the same as RowWritten, for column c |
| Grid.FillCell | binairo.py:131 | writing a digit into an unknown cell refines the grid and removes exactly one unknown |
| Grid.RefinesXCount | binairo.py:182-193 | refining never adds unknowns, and a refinement with as many unknowns is the same grid; this is the termination measure of the mutual recursion |
| Puzzle.Binairo.SetItem | binairo.py:51-59 | Pass exactly when the value has length 1; on Fail the grid is unchanged; on Pass only cell (r, c) changes, to the value, the length stays size^2, and the pools are unchanged |
| Puzzle.Binairo.SetRow | binairo.py:63-67 | Pass exactly when the value has length size; on Fail the grid is unchanged; on Pass only row index changes, to the value |
| Puzzle.Binairo.Equals | binairo.py:245-246 | for two valid puzzles, == holds exactly when they have the same side and the same cell at every position |
| Puzzle.SameGridIffSameCells | binairo.py:245-246 | two square grid strings are equal exactly when their sides and all their cells agree |
| Resolver.Matching | binairo.py:104-107 | the result is exactly the pool entries that agree with every known 0 and 1 of the line, in pool order |
| Resolver.GetSolutions | binairo.py:99-107 | Ok exactly when every character is a digit or X (Python's int()); then the result is exactly the agreeing pool entries, in pool order |
| Resolver.DigitValues | binairo.py:116 | the digits read from a known line equal a candidate exactly when the candidate agrees with the line and the line holds only 0 and 1 |
| Resolver.Without | binairo.py:116-118 | np.delete of the entries equal to v: exactly the other entries survive, in order; the pool is unchanged when v is absent |
| Resolver.WithoutPresent | binairo.py:127-128 | in a pool of distinct lines, deleting a present entry shortens the pool by exactly one |
| Resolver.Forced | binairo.py:129-139 | the line keeps its length and is refined; a position changes exactly when it was X and all candidates share its digit, and it then receives every candidate's digit there |
| Resolver.ForcedPositions | binairo.py:135-141 | the positions reported below j are fewer than j, and all of them are below j |
| Resolver.ForcedBySingle | binairo.py:126-133 | with one candidate, every X receives the candidate's digit, the reported positions are exactly the X positions, and a well-formed line becomes the candidate |
| Resolver.ForcedPositionsSpec | binairo.py:135-141 | the reported positions are exactly the unknown positions where every candidate agrees, strictly ascending |
| Resolver.ResolveLine | binairo.py:109-175 | a resolved line keeps its length; the only errors are InvalidCharacter and NoSolutionsFound (exact conditions in ResolveErrors, the other guarantees in ResolveSound) |
| Resolver.ResolveErrors | binairo.py:114-123 | InvalidCharacter exactly when some character is neither a digit nor X; NoSolutionsFound exactly when the line parses, has an X and no pool entry agrees; no other error occurs |
| Resolver.ResolveSound | binairo.py:109-141 | in every branch: known cells are never altered and unknowns become only 0 or 1; the changes are exactly the altered positions, ascending; the pool only loses entries and stays a pool of distinct legal lines |
| Resolver.ResolveKnownLine | binairo.py:114-119 | a fully known line is unchanged with no changes reported; exactly its own value leaves the pool, which is untouched when that value is absent and one shorter when present |
| Resolver.ResolveSingleCandidate | binairo.py:126-133 | with exactly one agreeing candidate every X becomes that candidate's digit, so a well-formed line becomes the candidate; the candidate leaves the pool, which is one shorter; the changes are exactly the former X positions |
| Resolver.ResolveSeveralCandidates | binairo.py:135-141 | with two different agreeing candidates the pool is untouched, and a position changes exactly when it was X and all agreeing candidates share a digit there, which it receives |
| Resolver.ResolveLossless | binairo.py:121-141 | the resolved line has exactly the same agreeing candidates as the original line |
| Puzzle.Binairo.FillAt | binairo.py:136-139 | a cell is written exactly when it is X and all candidates agree there, which removes one unknown; nothing else changes |
| Puzzle.Binairo.FillRowAt | binairo.py:136-139 | one pass of the row's writing loop: with the forced line already written before position j, it is written up to j + 1; the change list grows to the forced positions below j + 1, and the X count drops by as many |
| Puzzle.Binairo.FillRow | binairo.py:125-141 | the reported columns are ForcedPositions; the row becomes the forced line, other rows are untouched, the grid is refined, and the X count drops by the number of changes |
| Puzzle.Binairo.CheckRow | binairo.py:109-141 | the result, new pool and new row are exactly what ResolveLine gives for the old row and old pool, and other rows are untouched; on error nothing changes; the grid is refined and the pool only loses entries |
| Puzzle.Binairo.FillColumnAt | binairo.py:170-173 | the same as FillRowAt, down a column |
| Puzzle.Binairo.FillColumn | binairo.py:159-175 | the same as FillRow, for a column |
| Puzzle.Binairo.CheckColumn | binairo.py:143-175 | the same as CheckRow, for a column and the column pool |
| Propagation.AdvancesReflexive | binairo.py:109-199 | a well-formed state follows itself |
| Propagation.AdvancesTransitive | binairo.py:182-199 | following is transitive, so a chain of checks stays a refinement with shrinking pools |
| Propagation.RowCheck | binairo.py:109-141 | on success the state follows the old one and the column pool is unchanged; every changed index is a column; a non-empty change list removes unknowns; the only errors are InvalidCharacter and NoSolutionsFound |
| Propagation.ColumnCheck | binairo.py:143-175 | the same as RowCheck, for a column; the row pool is unchanged |
| Propagation.WriteBackRow | binairo.py:125-141 | writing back a row refinement refines the grid, its changed positions are columns, and a non-empty change list lowers the X count |
| Propagation.WriteBackColumn | binairo.py:159-175 | the same as WriteBackRow, for a column |
| Propagation.RowVisit | binairo.py:183-184 | one row check and the column cascade it triggers: the state reached follows the old one |
| Propagation.ColumnVisit | binairo.py:192-193 | one column check and the row cascade it triggers: the state reached follows the old one |
| Propagation.RowCascade | binairo.py:177-184 | _iterate_rows reaches a state that follows the old one; it is well defined for every input because the mutual recursion ends |
| Propagation.ColumnCascade | binairo.py:186-193 | the same as RowCascade, for _iterate_columns |
| Propagation.Upto | binairo.py:198-199 | range(size): size entries, entry k being k |
| Propagation.Sweep | binairo.py:195-199 | _loop reaches a state that follows the old one |
| Puzzle.Binairo.VisitRow | binairo.py:183-184 | the new grid and pools and the outcome are exactly Propagation.RowVisit of the old state |
| Puzzle.Binairo.VisitColumn | binairo.py:192-193 | the new grid and pools and the outcome are exactly Propagation.ColumnVisit of the old state |
| Puzzle.Binairo.IterateRows | binairo.py:177-184 | the new grid and pools and the outcome are exactly Propagation.RowCascade of the old state and the indices |
| Puzzle.Binairo.IterateColumns | binairo.py:186-193 | the new grid and pools and the outcome are exactly Propagation.ColumnCascade of the old state and the indices |
| Puzzle.Binairo.Loop | binairo.py:195-199 | the new grid and pools and the outcome are exactly Propagation.Sweep of the old state |
| Propagation.Rounds | binairo.py:201-207 | solve on values with at most fuel sweeps: the final state follows the start; Solved only when no X is left, Unfinished only while one is; a failure carries InvalidCharacter or NoSolutionsFound |
| Propagation.RoundsSettled | binairo.py:201-207 | once a run has solved or failed, more fuel gives the same final state and status |
| Puzzle.Binairo.Solve | binairo.py:201-207 | the final grid, pools and status are exactly Propagation.Rounds of the starting state; Solved only when no X is left, Unfinished only while one is; the grid is refined throughout |
| Special.SpecialBinairo.MakeBand | special_binairo.py:13 | one fresh, pairwise distinct, valid subpuzzle of side subsize per block text of a block row, holding that text, with every legal line in both pools |
| Special.SpecialBinairo.MakeBands | special_binairo.py:11-13 | an m-by-m grid of fresh, pairwise distinct valid subpuzzles, each holding its block text with every legal line in both pools (the constructor passes the blocks of the whole grid) |
| Special.SpecialBinairo.constructor | special_binairo.py:7-13 | the whole puzzle is a copy of the given one, and subpuzzle (a, b) holds block (a, b); every puzzle has every legal line in both pools |
| Special.SpecialBinairo.Create | special_binairo.py:7-13 | InvalidSize for a non-square string and ZeroStep for subsize 0; otherwise every subpuzzle holds its block of the string, and every puzzle has every legal line in both pools |
| Special.SpecialBinairo.AppendBlock | special_binairo.py:24-26 | each accumulated row j gets row j of one subpuzzle appended |
| Special.SpecialBinairo.JoinBand | special_binairo.py:22-26 | rows[j] is row j of every subpuzzle of block row a, joined left to right |
| Special.SpecialBinairo.WriteBand | special_binairo.py:28-29 | the rows of block row a become the joined rows, and every other row is unchanged |
| Special.SpecialBinairo.UpdateBand | special_binairo.py:21-29 | one more block row of the whole puzzle holds its subpuzzles' joined rows |
| Grid.BlocksOfBands | special_binairo.py:21-29 | when every block row holds the joined rows of its blocks' texts, each block of the grid is that text |
| Special.SpecialBinairo.WriteBands | special_binairo.py:21-29 | after the loop over all block rows, every block row of the whole puzzle holds its subpuzzles' joined rows; pools and side are unchanged |
| Special.SpecialBinairo.UpdatePuzzle | special_binairo.py:18-29 | afterwards every block of the whole puzzle equals its subpuzzle; the subpuzzles, the pools and the length are unchanged; when the blocks already matched, the whole puzzle is unchanged |
| Grid.BlocksDetermineGrid | special_binairo.py:18-36 | a grid is determined by its blocks |
| Grid.JoinOfSplit | special_binairo.py:21-36 | cutting a grid into blocks and joining them back row by row gives the same grid |
| Grid.Join | special_binairo.py:21-29 | joining an m-by-m grid of k-by-k block texts row by row gives a grid of side m*k whose block (a, b) is text (a, b) |
| Grid.JoinBands | special_binairo.py:21-29 | row i of block row a of the joined grid is row i of every text of block row a, left to right |
| Grid.JoinOfBlocks | special_binairo.py:21-29 | joining the blocks of a grid gives back that grid |
| Special.SpecialBinairo.SyncedIsJoin | special_binairo.py:21-29 | when every subpuzzle holds its block, the whole grid is the join of the subpuzzles' grids |
| Special.SpecialBinairo.SetBlock | special_binairo.py:36 | subpuzzle (a, b) holds block (a, b), and its side and pools are unchanged |
| Special.SpecialBinairo.SetBand | special_binairo.py:35-36 | every subpuzzle of block row a holds its block; the others and every side and pool are unchanged |
| Special.Recut | special_binairo.py:31-36 | on values: every subpuzzle state takes its block of the whole grid as its grid and keeps its pools |
| Special.SpecialBinairo.UpdateSubpuzzles | special_binairo.py:31-36 | afterwards every subpuzzle holds its block and the whole puzzle is unchanged; sides and pools are unchanged; subpuzzles that already held their blocks keep their grids; the subpuzzle states are Recut of the old ones by the whole grid |
| Special.SpecialBinairo.LoopBand | special_binairo.py:43-44 | subpuzzles of block row a before the failing one end as Propagation.Sweep leaves them; the failing one ends in Sweep's state with its outcome; all others are untouched |
| Special.SpecialBinairo.LoopSubpuzzles | special_binairo.py:42-44 | in row-major order, the subpuzzles before the first failure end in Propagation.Sweep's state; the failing one ends in Sweep's state with its outcome; the rest are untouched; Pass exactly when none failed |
| Special.SweepBand | special_binairo.py:43-44 | on values: _loop on each state of a block row in turn, the first failure stopping it; every state stays well formed and is refined, and a failure carries InvalidCharacter or NoSolutionsFound |
| Special.SweepBands | special_binairo.py:42-44 | the same over all block rows, in row-major order |
| Special.BandSweptIsSweepBand | special_binairo.py:43-44 | states swept with Pass before position fb, the one at fb ending with the outcome and the rest untouched are exactly what SweepBand computes |
| Special.GridSweptIsSweepBands | special_binairo.py:42-44 | the same relation over block rows is exactly what SweepBands computes |
| Special.InOrderIsSweepBands | special_binairo.py:42-44 | the row-major relation that LoopSubpuzzles leaves is exactly what SweepBands computes |
| Grid.BlocksRefine | special_binairo.py:42-46 | a grid whose every block is refined is refined |
| Special.SpecialBinairo.SweepSubpuzzles | special_binairo.py:42-46 | the subpuzzles end as LoopSubpuzzles leaves them; on failure the whole puzzle is untouched; otherwise every block equals its subpuzzle, the whole puzzle's pools are unchanged and, starting from matching blocks, its grid is refined |
| Special.SpecialBinairo.MergeSubpuzzles | special_binairo.py:42-46 | the subpuzzles' new states and the outcome are exactly SweepBands of their old states; on failure the whole puzzle is untouched; otherwise it holds the join of the subpuzzles' grids and keeps its pools |
| Special.SpecialBinairo.SweepWhole | special_binairo.py:48-49 | the whole puzzle's new grid and pools and the outcome are exactly Propagation.Sweep of its old state; on failure the subpuzzle states are unchanged; otherwise every subpuzzle holds its block and the states are Recut of the old ones |
| Special.SpecialBinairo.FinishRound | special_binairo.py:48-49 | after a passing merge, the rest of the round leaves the states and the outcome SpecialRound gives |
| Special.MergeRefines | special_binairo.py:42-46 | subpuzzles that held their blocks and were only refined merge into a refinement of the whole grid |
| Special.SpecialRound | special_binairo.py:41-49 | one round of solve on values: the whole state stays well formed with side m*k, the subpuzzle states stay an m-by-m grid of side-k states, and a failure carries InvalidCharacter or NoSolutionsFound |
| Special.SpecialRoundRefines | special_binairo.py:41-49 | from subpuzzles that hold their blocks, a round only refines the whole grid, and a round that passes leaves every subpuzzle holding its block |
| Special.SpecialBinairo.Round | special_binairo.py:41-49 | the whole puzzle's new state, the subpuzzles' new states and the outcome are exactly SpecialRound of the old states |
| Special.SpecialRounds | special_binairo.py:38-49 | solve on values with at most fuel rounds: Solved only when the whole grid has no X, Unfinished only while it has one; a failure carries InvalidCharacter or NoSolutionsFound |
| Special.SpecialRoundsRefine | special_binairo.py:38-49 | from subpuzzles that hold their blocks, solve only refines the whole grid |
| Special.SpecialBinairo.Solve | special_binairo.py:38-49 | the whole puzzle's final state, the subpuzzles' final states and the status are exactly SpecialRounds of the starting states; Solved only when the whole puzzle has no X, Unfinished only while it has one; starting from matching blocks, the whole puzzle is only refined |

## Left out

- Reading a puzzle from a file path in `__init__` (binairo.py:16-18), `from_url`, `from_html`, both `__main__` scripts, and test.py: all of these are file, network or concurrency I/O.
- `int(l ** 0.5)` is floating point. The model searches for the integer square root instead, which agrees with it wherever the float root is exact.
- numpy arrays: candidates are sequences of 0/1 integers and pools are sequences of candidates. `np.delete` of the matching rows is `Without`.
- `_setcolumn` (binairo.py:69-73) is unused by the solver, and it replaces the whole grid rather than one column; it is not modelled.
- `__str__` and `__repr__` are formatting only.
- `__getitem__` is modelled only in the forms the code uses: an integer row (`Grid.Row`, read by `_update_puzzle` at special_binairo.py:24), a pair of in-range slices (`Grid.Block`, special_binairo.py:13 and 36) and an integer pair (`Grid.GetItem`). The solver writes cells through pairs with `__setitem__` (binairo.py:131, 138, 165 and 172) and never reads one. Negative indices, slice clamping and the `IndexError`/`TypeError` branches are not modelled.
- Puzzle.Binairo.SetItem: requires `r, c < size`. The source accepts any integers, and out-of-range or negative indices splice the string elsewhere.
- Puzzle.Binairo.SetRow: requires `index < size`, for the same reason.
- Puzzle.Binairo.Copy: requires the copied puzzle to be valid, which every puzzle built by the constructor is.
- Special.SpecialBinairo.constructor: requires `subsize` to divide the side. With a non-divisor the source cuts ragged edge blocks. A ragged block whose length is no perfect square raises "Invalid puzzle size" (binairo.py:22-23): side 6 with subsize 4 gives a 4-by-2 block of 8 characters. A ragged block whose length is a perfect square builds a puzzle of the wrong shape: side 5 with subsize 4 turns a 4-by-1 strip into a 2-by-2 puzzle. It also requires `subsize > 0`: `Create` reports `ZeroStep` where Python's `range` raises. A negative `subsize` cannot be expressed.
- Special.SpecialBinairo.Create: builds the whole puzzle from the string and then copies it. This yields the same grid and pools as the source's single construction.
- Puzzle.Binairo.Solve: at most `fuel` sweeps run. The source loops for ever when sweeps stop making progress, so neither termination nor solving is claimed.
- Special.SpecialBinairo.Solve: bounded by `fuel` in the same way. Soundness of block-level solving for the whole grid is not claimed.
- Python's `int()` also accepts non-ASCII digits. The model parses only `'0'`-`'9'` and treats other characters as `InvalidCharacter`.
- Raised exceptions become `Err`/`Fail` results. The state at the point of the raise is kept, as in the source. Puzzle copies and `deepcopy` of the pool need no modelling, because pools are values.
- Python's recursion limit is not modelled. `_iterate_rows` and `_iterate_columns` (binairo.py:182-193) recurse into each other depth first, and a long cascade raises `RecursionError` in the source; the model's cascades have no depth bound.
