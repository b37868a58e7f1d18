# Connect Four computer player: a verified model

This project models the move-search engine of a Connect Four computer player
(`ComputerPlayer` in `connect4player.py`). The player keeps one rack, a
column-major grid where 0 marks an empty slot and 1 or 2 marks a disc of that
player. It explores future positions by dropping a disc into a column and
lifting it back out, all on that one rack. It scores a position by summing a
fixed score table over every four-slot window ("quartet"). It chooses a move
with a depth-limited minimax in sign-flipping (negamax) style, with optional
alpha-beta pruning.

The project has four modules:

- `Board` (`board.dfy`): the rack as a value. It has the two primitives `Drop`
  and `Lift`, specified by the slot they touch, and the proof that lifting
  undoes dropping on a column without floating discs.
- `Evaluation` (`evaluation.dfy`): the quartet score table (`QuartetScore`).
  It describes the windows the evaluation visits, in the order it visits
  them, as descriptors `Window(direction, column, row)`. The static value
  `Eval` is the sum over those windows. Proved here: the score table, the
  exact set and number of windows, that the evaluation is zero-sum between
  players 1 and 2, and that a drop adds at most one disc to any quartet, so
  a rack stays within ±100 per window until some side holds a full quartet.
- `Negamax` (`search.dfy`): the search exactly as the program performs it.
  `Search`, `Score` and `Scan` follow the column loop with its bounds and
  cutoffs, and `Pick` is the root choice. `Value` and `Best` are an
  independent reference: plain minimax from the searching player's point of
  view, with no bounds. Proved here:
  - without pruning the search is minimax;
  - with pruning it keeps the alpha-beta (fail-soft) window promise;
  - from the full window both compute minimax, so pruning does not change
    the chosen column, provided every static value the search scores lies
    within [-INFINITY, INFINITY] (`Bounded`);
  - `Bounded` holds whenever no side can complete a quartet within the
    plies searched, for example on any empty rack up to depth 6;
  - the root picks the lowest-indexed legal column of greatest value.
- `Player` (`player.dfy`): the class `ComputerPlayer`. Its fields are the
  player number, the search depth, the pruning switch and the rack. The
  methods are written imperatively like the program: in-place drop and lift,
  a counting loop per quartet, nested window loops, and the recursive column
  loop with its cutoffs. Each method is proved equal to the function above
  that specifies it.

The win detector `find_win` is imported from another module whose definition
is not part of this model. It is the function-valued field `findWin` of the
player, a value of type `(Rack, int) -> bool`. Every result holds for any
such function.

The search's requirement that the rack be settled follows the code. A rack
is settled when no disc floats above an empty slot. Undoing a move takes away
the topmost disc, and that is the disc just dropped only when the column is
settled.

## Model

| member | source | states |
|---|---|---|
| Board.Lowest | connect4player.py:134-137 | the slot `_do_move` fills is the first empty one: every slot below it holds a disc, and it is the column length when there is none |
| Board.Highest | connect4player.py:148-152 | the slot `_undo_move` empties is the topmost disc: every slot above it is empty, and it is -1 when the column is empty |
| Board.Drop | connect4player.py:123-137 | dropping writes the player into the lowest empty slot of column c, changes no other slot, keeps every column's length and keeps the rack rectangular; a column with no empty slot is left unchanged |
| Board.Lift | connect4player.py:139-152 | lifting zeroes the topmost disc of column c and changes no other slot; an empty column is left unchanged |
| Board.FullIffNoEmptySlot | connect4player.py:51-52 | on a settled column, the top-slot test for "full" holds exactly when the column has no empty slot |
| Board.DropKeepsSettled | connect4player.py:87 | dropping a disc keeps every column free of floating discs |
| Board.LiftUndoesDrop | connect4player.py:87-102 | on a settled, non-full column, lifting after dropping restores the rack exactly |
| Player.ComputerPlayer.DoMove | connect4player.py:123-137 | the in-place loop leaves the rack equal to `Drop` of the old rack |
| Player.ComputerPlayer.UndoMove | connect4player.py:139-152 | the downward in-place loop leaves the rack equal to `Lift` of the old rack |
| Evaluation.QuartetScore | connect4player.py:190-229 | the score of one quartet follows `_checkQuartet`'s branches: 0 when it is empty or holds both sides, otherwise 1, 10, 100 or INFINITY by disc count, negated for the opponent; the contract bounds it by ±INFINITY, and by ±100 while neither side holds all four slots |
| Evaluation.QuartetScoreTable | connect4player.py:196-229 | a quartet scores 0 exactly when it is empty or holds discs of both sides; it scores positive exactly when it holds only the player's own discs; its size is 1, 10, 100 or INFINITY for 1 to 4 discs, negated for the opponent's discs |
| Evaluation.QuartetScoreSwap | connect4player.py:210-229 | swapping the point of view between players 1 and 2 negates a quartet's score |
| Player.ComputerPlayer.CheckQuartet | connect4player.py:190-229 | the counting loop and the branches return `QuartetScore` of the quartet for this player |
| Evaluation.WindowsExact | connect4player.py:159-188 | the evaluation visits a window exactly when its four slots lie on the rack |
| Evaluation.WindowCount | connect4player.py:159-188 | on a W-by-H rack the evaluation visits W(H-3) vertical, (W-3)H horizontal and (W-3)(H-3) windows in each diagonal |
| Evaluation.SumAppend | connect4player.py:159-188 | the score of consecutive window groups is the sum of the groups' scores |
| Evaluation.Eval | connect4player.py:154-188 | the static value follows `_eval`: the quartet scores summed over the vertical, horizontal, up-right and down-right windows in that order; the contract bounds it by ±100 per window while no quartet holds four discs of one side |
| Evaluation.DropQuartet | connect4player.py:123-137 | a drop fills one empty slot, so any quartet gains at most one disc, of the dropping player's side, and no other count grows |
| Evaluation.FewDiscsEval | connect4player.py:154-229 | while no quartet holds four discs of one side, a rack of at most INFINITY / 100 windows has a static value within [-INFINITY, INFINITY] |
| Evaluation.EvalSwap | connect4player.py:154-188 | the static value is zero-sum: player 1's value of a rack is the negation of player 2's |
| Player.ComputerPlayer.Evaluate | connect4player.py:154-188 | the four loop groups add up to `Eval`, the sum of quartet scores over all windows in visiting order; the rack is only read |
| Player.ComputerPlayer.VerticalScore | connect4player.py:162-165 | the vertical loops add up the vertical windows of every column |
| Player.ComputerPlayer.VerticalStrip | connect4player.py:164-165 | the slices of four of one column, from row 0 up, add up that column's vertical windows |
| Player.ComputerPlayer.HorizontalScore | connect4player.py:167-170 | the horizontal loops add up the horizontal windows of every first column |
| Player.ComputerPlayer.HorizontalStrip | connect4player.py:169-170 | the rows of four columns from row 0 up add up that column's horizontal windows |
| Player.ComputerPlayer.UpRightScore | connect4player.py:172-178 | the up-right loops add up the up-right windows of every first column |
| Player.ComputerPlayer.UpRightStrip | connect4player.py:174-178 | the up-right quartets of one first column, from row 0 up, add up its windows |
| Player.ComputerPlayer.DownRightScore | connect4player.py:180-186 | the down-right loops add up the down-right windows of every first column |
| Player.ComputerPlayer.DownRightStrip | connect4player.py:182-186 | the down-right quartets of one first column, from the top row down to row 3, add up its windows |
| Negamax.Mover | connect4player.py:87 | a max node drops the searching player's disc and a min node the other player's, and both are players 1 or 2 |
| Negamax.Search | connect4player.py:68-121 | a node follows `_calc_move`: the static value at depth >= maxDepth, otherwise mult times the column loop's best, which starts at -INFINITY; the contract states that below the horizon a max node scores at least -INFINITY and a min node at most INFINITY |
| Negamax.Score | connect4player.py:87-101 | a tried column follows the loop body: drop the mover's disc (the player at a max node, 3 - id at a min node), score mult times the static value when the win test reports the drop, else mult times the child node one ply deeper with the same bounds; the contract states that on the last ply before the horizon every drop is scored statically |
| Negamax.Scan | connect4player.py:78-121 | the column loop: full columns are skipped, best starts at -INFINITY and takes every larger score; with pruning a max node raises alpha and stops at score >= beta, a min node lowers beta to -score and stops at -score <= alpha; the contract states the result never falls below the best so far |
| Negamax.Best | connect4player.py:78-121 | the reference minimax over the legal children starts from -INFINITY at a max node and from INFINITY at a min node and never passes that start |
| Negamax.UnprunedIsMinimax | connect4player.py:68-121 | without pruning the search computes the reference minimax value, for any bounds passed in |
| Negamax.PrunedWithinWindow | connect4player.py:107-119 | with pruning, a value at or below alpha gives a score at or below alpha, a value at or above beta a score at or above beta, and a value strictly between them is returned exactly |
| Negamax.SearchInRange | connect4player.py:78-121 | with or without pruning, a search score lies within [-INFINITY, INFINITY] when every static value that search scores does (`Bounded`: along the search's own tree, alternating movers, legal columns only, the value at the horizon or right after a reported win) |
| Negamax.PruningAgrees | connect4player.py:107-119 | from the full window, pruned and unpruned search both equal the reference minimax value whenever `Bounded` holds at the node |
| Negamax.FewDiscsBounded | connect4player.py:68-121 | `Bounded` holds when no quartet can reach four discs of one side in the plies left (the mover plays every other ply, starting now) and the rack has at most INFINITY / 100 windows |
| Negamax.FewDiscsRootBounded | connect4player.py:45-66 | the same for every root move, where the searching player drops first |
| Player.ComputerPlayer.MoveScore | connect4player.py:87-102 | one tried column drops the side to move's disc, scores a winning drop statically and any other by the next ply, and takes the disc back: the rack is unchanged and the score is `Score` |
| Player.ComputerPlayer.CalcMove | connect4player.py:68-121 | the recursive column loop with its cutoffs returns `Search` of the rack and leaves the rack unchanged, also after a cutoff; it terminates because the depth grows towards maxDepth |
| Negamax.PickFrom | connect4player.py:45-65 | the root loop over the move scores: skips full columns and takes a column when it scores strictly better than the best so far or no move is chosen yet; the contract states the result is the incoming choice or a legal column from the current one on |
| Negamax.Pick | connect4player.py:28-66 | the root choice starts from move -1 and best -INFINITY and scores each column by the min node one ply down with the full window; the contract states the result is -1 or a legal column |
| Negamax.PickChoosesFirstBest | connect4player.py:45-66 | the root returns -1 exactly when every column is full; otherwise it returns a legal column whose score is maximal, and no lower legal column scores as much |
| Negamax.PickIsMinimax | connect4player.py:45-66 | the root returns the lowest-indexed legal column of greatest minimax value, and -1 only when every column is full: without pruning on every rack, with pruning when `RootBounded` holds |
| Negamax.PruningKeepsMove | connect4player.py:107-119 | turning pruning on or off does not change the chosen column when `RootBounded` holds |
| Negamax.EmptyRackKeepsMove | connect4player.py:107-119 | on an empty rack of at most INFINITY / 100 windows and a depth of at most 6, `RootBounded` holds and pruning does not change the opening move |
| Negamax.FirstReplyKeepsMove | testPrune.py:4-36 | in the pruning comparison game (13-by-8 rack, depth 4), after player 1's opening disc in any column, player 2 picks the same column with and without pruning |
| Player.ComputerPlayer.PickMove | connect4player.py:28-66 | the root loop makes the rack a copy of the given rack, restores it after every try, and returns `Pick` of it |
| Player.ComputerPlayer.constructor | connect4player.py:19-26 | a new player has the given number and depth, with pruning on |

## Left out

- The body of `find_win` belongs to the `connect4` module, which is not part of this model. It is a parameter (`findWin`), so every result holds for any win test.
- Negamax.SearchInRange requires `Bounded` at the node. `Bounded` ranges over the search's own tree only: legal columns, the searching player and the opponent alternating as the search drops them, the static value at the horizon or right after a drop the win test reports, and nothing past such a drop. Each of those values must lie within [-INFINITY, INFINITY].
- Negamax.PruningAgrees requires `Bounded` at the node, and Negamax.PruningKeepsMove requires `RootBounded` (`Bounded` below every root move). Both fail once the search can reach a completed quartet: one four plus any other window of the same side already scores past INFINITY, because the static value is not capped. `FewDiscsBounded` discharges the hypothesis when no side can complete a quartet within the plies searched, which covers an empty rack up to depth 6 and player 2's first reply in the 13-by-8 depth-4 comparison game. Positions where a four can be completed within the horizon are not covered.
- Negamax.PickIsMinimax requires `RootBounded` with pruning on, for the same reason; without pruning it holds on every rack.
- Player.ComputerPlayer.PickMove requires a rectangular rack with no floating discs, and a player number of 1 or 2. The program takes both for granted and does not check them.
- Player.ComputerPlayer.PickMove: the list copy and the sharing of the nested lists are not modelled, because racks are values here. The caller's rack cannot change, which matches the program's copy.
- Player.ComputerPlayer.constructor: the program leaves the rack unset until the first `pick_move`. The model starts it empty.
- The ±INFINITY bounds and the scores are unbounded integers. Python integers do not overflow either.
- Immediate-win detection (that the search prefers a winning drop) is not stated. It depends on what `find_win` returns, and that is not modelled.
- The docstring of `pick_move` speaks of a pause and a random move. The code does neither, and the model follows the code.
- When every column is full, the program returns -1. The model returns -1 as well and proves that this happens exactly then. It does not treat a full rack as a precondition violation.
- The test and game-loop scripts, printing and human input are not modelled.
