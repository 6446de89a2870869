# Cinderblock: the rule engine and the breadth-first solver

Cinderblock is a sliding-piece puzzle on a rectangular grid with two kinds of
pieces: CINDERs, which are passive, and DYNAMOs, which are active. A piece
moves by jumping two cells in one direction over a "tether" piece on the cell
between. The destination must be on the board and free. A DYNAMO tether is
captured. The puzzle is won once fewer than two DYNAMOs are left.

This project models two C# files and proves properties of the model:

- `src/Cinderblock.cs`: the rules, the piece record and the board.
- `src/CinderblockSolver.cs`: the search tree (`BoardState`) and the
  breadth-first solver (`Solver`).

The modules:

| file | module | what it holds |
|---|---|---|
| `rules.dfy` | `Rules` | piece types, directions, integer positions, `DirectionOffset`, the `Piece` record and its id-free `Equals` |
| `wrappers.dfy` | `Wrappers` | `Option`, and `Result` for the source's exceptions and null returns |
| `layout.dfy` | `Layout` | the move rule on piece values: dictionary lookup and removal, the tether search, `Move`, `IsWin` and the board invariant |
| `text.dfy` | `Text` | `String.Split` on one separator and decimal writing of integers |
| `format.dfy` | `BoardFormat` | `FromString` on values: `Parse` and what it accepts |
| `identity.dfy` | `Identity` | `UniqueIdentifier` on values, the key `Key`, and why it is canonical |
| `board.dfy` | `Cinderblock` | `class Board`, whose methods are proved against the functions above |
| `search.dfy` | `Search` | the breadth-first search on layouts: `Successors`, `Admit`, `Round` and `Run`/`Solve` |
| `solver.dfy` | `CinderblockSolver` | `class BoardState` and `class Solver`, whose methods are proved against `Search` |

In the model, a board's `Dictionary<int, Piece>` is a `seq<Piece>` in
enumeration order. The board only appends entries and removes entries
without reordering the rest, so this order is insertion order. An in-place
position update replaces that entry with the moved piece value.

`Vector2` positions are pairs of `int`. The source stores every coordinate
as a single-precision float. Integer positions are exact only while every
coordinate, and every coordinate plus or minus 2, is at most 2^24 in
magnitude.

Each `BoardState` carries a ghost `trail`: the move descriptions from the
root to it. A solver state is `Reached` when replaying its trail from the
start layout with `Move` gives its board. Each `Solver` carries a ghost
`level`: the number of moves from the root to every frontier state.

`Solver.Solve` is proved to leave exactly the state `Search.Solve` computes
from the old state. `Search.Solve` is a function of the layouts alone, and
the lemmas in `Search` say what its result means.

Where the code and its design description differ, the model follows the
code:

- `MovePiece` moves any piece, not only DYNAMOs. Only the solver restricts
  moves to DYNAMOs.
- `ExpandState` sets `hasExpanded` inside the loop over DYNAMOs. A board
  without DYNAMOs is therefore never marked expanded.
- `PlacePiece` numbers a new piece by the current piece count. If that id
  is taken, `Dictionary.Add` throws; this case is modelled as the outcome
  `DuplicateId`.
- A second `Solve` call after a win starts with a frontier one level deeper
  than `Iterations`, because `Iterations` is not incremented on a win.
  `Solver.Solve` states this as the change of `level - Iterations`.

## Model

| member | source | states |
|---|---|---|
| `Rules.DirectionOffset` | src/Cinderblock.cs:24-32 | each direction is a unit step along exactly one axis; LEFT and RIGHT are horizontal; RIGHT and DOWN go towards larger coordinates |
| `Cinderblock.Board.constructor` | src/Cinderblock.cs:74-77 | an empty board of the given width and height, whose ids are trivially distinct |
| `Cinderblock.Board.Copy` | src/Cinderblock.cs:80-87 | the copy has the source board's size and an equal piece (type, id, position) for every entry, in the same order, so distinct ids stay distinct |
| `Cinderblock.Board.FromString` | src/Cinderblock.cs:90-111 | succeeds exactly when the layout is readable; the board is as wide as the first row and as high as the number of rows, and holds the pieces `Parse` places; otherwise it reports the same error `Parse` does |
| `Cinderblock.Board.PlacePiece` | src/Cinderblock.cs:114-121 | out of range exactly when x >= width or y >= height (negative coordinates pass); a duplicate id exactly when the piece count is already a key; otherwise exactly one piece is appended, of the given type and cell, with the old count as its id; nothing changes on an error, and distinct ids stay distinct |
| `Cinderblock.Board.GetPiecesOfType` | src/Cinderblock.cs:124-126 | the result holds exactly the board's pieces of the given type, and no more of them than the board has |
| `Cinderblock.Board.IsWin` | src/Cinderblock.cs:69 | defined, without a contract of its own, as the layout predicate `Layout.Won`: fewer than two DYNAMOs among the pieces; `Layout.WonIff` states it over pairs of entries |
| `Cinderblock.Board.MovePiece` | src/Cinderblock.cs:129-155 | returns true exactly when the move rule allows the move; the pieces become the rule's result, or stay exactly as they were on a refusal; ids stay distinct |
| `Cinderblock.MoveOffBoard` | src/Cinderblock.cs:133-137 | a destination off the grid refuses the move |
| `Cinderblock.MoveNoTether` | src/Cinderblock.cs:139-145 | no piece on the adjacent cell refuses the move |
| `Cinderblock.MoveBlocked` | src/Cinderblock.cs:147-150 | a piece on the destination refuses the move |
| `Cinderblock.MoveTaken` | src/Cinderblock.cs:152-154 | once every guard passes, the result is the mover jumped two cells, with the tether removed exactly when it is a DYNAMO |
| `Cinderblock.Board.UniqueIdentifier` | src/Cinderblock.cs:158-173 | the string built by the two loops is the layout's key: a token per DYNAMO, then a token per CINDER, each run sorted by column then row |
| `Cinderblock.ValidFromIds` | src/Cinderblock.cs:119 | pieces numbered by their position in the dictionary have distinct ids |
| `Layout.IndexOfId` | src/Cinderblock.cs:130 | the lookup `Pieces[pid]` finds the first entry whose key is pid |
| `Layout.Move` | src/Cinderblock.cs:129-155 | the move rule on piece values, defined without a contract of its own, with the guards tried in the source's order; `Layout.MoveRefusedIff` says when it refuses and `Layout.MoveEffect` what it does otherwise; `Cinderblock.Board.MovePiece` is proved to compute it |
| `Layout.OfType` | src/Cinderblock.cs:124-126 | exactly the pieces of type t, no more than there are pieces, with distinct ids when the board's ids are distinct |
| `Layout.WonIff` | src/Cinderblock.cs:69 | `IsWin` holds exactly when no two distinct entries are both DYNAMOs |
| `Layout.LastAt` | src/Cinderblock.cs:140-143 | the tether search finds nothing exactly when the cell is empty, and otherwise the last entry on that cell |
| `Layout.RemoveId` | src/Cinderblock.cs:153 | `Dictionary.Remove` keeps exactly the entries with another key; it changes nothing when the key is absent and drops one entry when it is present |
| `Layout.MoveRefusedIff` | src/Cinderblock.cs:133-150 | a move is refused exactly when the destination is off the grid, the adjacent cell is empty, or the destination is taken |
| `Layout.Tether` | src/Cinderblock.cs:140-145 | the tether of a legal move lies on the adjacent cell and is not the mover |
| `Layout.JumpFacts` | src/Cinderblock.cs:152 | the jump changes only the mover's entry, keeps the piece count and the ids distinct, and places the mover two cells further on |
| `Layout.MoveEffect` | src/Cinderblock.cs:152-154 | after a legal move the mover stands two cells further on; a DYNAMO tether is gone and a CINDER tether stays; every other entry is kept; the count drops by one exactly on a capture |
| `Layout.MoveKeepsConsistent` | src/Cinderblock.cs:134-154 | a legal move keeps every piece on the grid and no two pieces on one cell |
| `Layout.MoveDynamoCount` | src/Cinderblock.cs:152-154 | a legal move removes one DYNAMO exactly when it captures one, so it never undoes a win |
| `Layout.OfTypeRemove` | src/Cinderblock.cs:153 | removing an entry lowers the count of its own type by one and of no other type |
| `BoardFormat.CellType` | src/Cinderblock.cs:98-103 | '0', '1' and '2' read as EMPTY, CINDER and DYNAMO, and every other character is refused |
| `BoardFormat.Parse` | src/Cinderblock.cs:90-111 | the pieces FromString places, or the first error it raises, defined without a contract of its own as the two loops on values; `BoardFormat.ParseSpec` says what it accepts and what it returns |
| `BoardFormat.ScanStep` | src/Cinderblock.cs:98-106 | reading one readable cell extends what has been read by that cell, placing a piece for a non-zero digit |
| `BoardFormat.ScanRowSpec` | src/Cinderblock.cs:96-107 | the inner loop either reads the whole row or stops at a cell that cannot be read |
| `BoardFormat.ScanRowsSpec` | src/Cinderblock.cs:95-108 | the outer loop either reads every row or stops at a cell that cannot be read |
| `BoardFormat.ScannedAll` | src/Cinderblock.cs:95-110 | a complete read leaves a well-formed grid and numbered, consistent pieces, placed in reading order, that mirror its cells |
| `BoardFormat.ParseSpec` | src/Cinderblock.cs:90-111 | parsing succeeds exactly when every row is at least as long as the first and its first characters, as many as the first row has, are digits 0-2; characters past that width are never read; the pieces then have ids 0, 1, 2, ... and are placed in reading order (row by row, left to right), lie on the grid on distinct cells, and are exactly the '1' cells as CINDERs and the '2' cells as DYNAMOs |
| `Text.Split` | src/Cinderblock.cs:91 | splitting yields at least one part, and no part holds the separator; joining the parts gives the text back |
| `Text.SplitJoin` | src/Cinderblock.cs:91 | splitting the joined parts gives the parts back |
| `Text.NatToStringValue` | src/Cinderblock.cs:167 | the decimal digits written for a coordinate read back as that number |
| `Text.IntPrefix` | src/Cinderblock.cs:167-170 | a written integer followed by a non-digit can be read back in one way only |
| `Identity.SortCells` | src/Cinderblock.cs:160-165 | the cells sorted by column then row, as a permutation of the input |
| `Identity.Key` | src/Cinderblock.cs:158-173 | the state key, defined without a contract of its own: the DYNAMO cells, then the CINDER cells, each sorted by column then row and each cell written as its tag (D or C), its column, a vertical bar and its row; `Identity.KeyIff` proves it canonical |
| `Identity.SortedUnique` | src/Cinderblock.cs:160-165 | a multiset of cells has only one sorted arrangement, so sort stability does not affect the key |
| `Identity.EncodeInjective` | src/Cinderblock.cs:166-171 | different lists of key entries are written as different strings |
| `Identity.KeyOfSameLayout` | src/Cinderblock.cs:157-172 | boards with the same multisets of DYNAMO cells and of CINDER cells get the same key, whatever their ids, entry order or size |
| `Identity.KeyOfSameShapes` | src/Cinderblock.cs:157-172 | boards whose pieces agree as (type, cell) pairs, counted with multiplicity, get the same key |
| `Identity.KeyOfEqualPieces` | src/Cinderblock.cs:57-62 | replacing every piece by one that `Piece.Equals` it, whatever its id, keeps the key |
| `Identity.KeyInjective` | src/Cinderblock.cs:157-172 | equal keys mean equal multisets of DYNAMO cells and of CINDER cells |
| `Identity.KeyIff` | src/Cinderblock.cs:157-172 | two keys are equal exactly when the layouts are the same |
| `CinderblockSolver.BoardState.constructor` | src/CinderblockSolver.cs:18-23 | a state holding the given board, parent and move description, with no children and not expanded; its trail is its parent's trail and its own move |
| `CinderblockSolver.BoardState.ExpandState` | src/CinderblockSolver.cs:25-42 | a second call changes nothing; a first call appends one fresh child per legal DYNAMO move, in DYNAMO then direction order, after the existing children; each child holds a fresh board of its own, the one that move leaves, and is linked to this state; the flag is then set exactly when the board has a DYNAMO |
| `CinderblockSolver.BoardState.AddAll` | src/CinderblockSolver.cs:30-41 | the children of each DYNAMO, in dictionary order, stand one for one for the layout's successors; each is fresh, with a fresh board no other child shares |
| `CinderblockSolver.BoardState.AddMoves` | src/CinderblockSolver.cs:33-38 | the children of one DYNAMO, in the order LEFT, RIGHT, UP, DOWN, stand one for one for its legal moves; each is fresh, with a fresh board no other child shares |
| `CinderblockSolver.BoardState.Attempt` | src/CinderblockSolver.cs:34-36 | a child comes back exactly when the move is legal; it is fresh, holds a fresh copy of the board with the move made, and has this state as parent; this state's own board is not touched |
| `CinderblockSolver.BoardState.Steps` | src/CinderblockSolver.cs:45-60 | walking the parent links gives the move descriptions from the root to this state, in the order they were made |
| `Search.TryDirectionsIff` | src/CinderblockSolver.cs:33-38 | the children of one piece are exactly its legal moves in the directions tried |
| `Search.ExpandAllIff` | src/CinderblockSolver.cs:30-41 | the children of a list of pieces are exactly the legal moves of its members |
| `Search.Successors` | src/CinderblockSolver.cs:30-41 | a layout has at most four children per DYNAMO |
| `Search.SuccessorsIff` | src/CinderblockSolver.cs:30-38 | the children of a layout are exactly the legal moves of its DYNAMOs |
| `Search.SuccessorsKeep` | src/CinderblockSolver.cs:34-36 | every child of a board with distinct ids has distinct ids, and is consistent when its parent is |
| `Search.ChildrenIff` | src/CinderblockSolver.cs:34-36 | a layout is a child exactly when some legal DYNAMO move leaves it |
| `Search.Admit` | src/CinderblockSolver.cs:91-97 | the seen keys grow by exactly the keys of the admitted children, in order |
| `Search.AdmitKeeps` | src/CinderblockSolver.cs:91-97 | only children are admitted, none whose key was already seen, and afterwards every child's key has been seen |
| `Search.AdmitDistinct` | src/CinderblockSolver.cs:93-96 | the seen keys never repeat, even among children admitted in the same pass |
| `Search.Round` | src/CinderblockSolver.cs:89-98 | a round's seen keys are the old ones followed by the keys of the new frontier |
| `Search.RoundDistinct` | src/CinderblockSolver.cs:89-98 | a round never repeats a seen key |
| `Search.RoundChildren` | src/CinderblockSolver.cs:89-98 | a round keeps only children of frontier layouts, and afterwards the key of every such child has been seen |
| `Search.RoundKeeps` | src/CinderblockSolver.cs:89-101 | a round keeps the invariant: the seen keys do not repeat and include every frontier key |
| `Search.FirstWin` | src/CinderblockSolver.cs:104-106 | the scan finds nothing exactly when no layout is won, and otherwise finds the first won layout |
| `Search.Run` | src/CinderblockSolver.cs:76-113 | the loop of Solve on values, for any expansion and key, defined without a contract of its own: exhausted when out of rounds, a dead end on an empty frontier, solved at the first won layout of a round's new frontier, and otherwise one more round; `Search.RunVerdict` and `Search.RunSeen` say what its result means |
| `Search.Solve` | src/CinderblockSolver.cs:76-113 | `Search.Run` with the children of a layout on a board of the given size as the expansion and `Identity.Key` as the key, defined without a contract of its own; `CinderblockSolver.Solver.Solve` is proved to compute it |
| `Search.SolveStops` | src/CinderblockSolver.cs:77-82 | out of rounds, `Solve` stops at once, reporting exhaustion; with rounds left and an empty frontier, it reports a dead end |
| `Search.SolveStep` | src/CinderblockSolver.cs:77-108 | one round replaces the frontier and the seen keys by the round's result; it stops at its first won layout, and otherwise goes on with one more iteration |
| `Search.RunVerdict` | src/CinderblockSolver.cs:76-113 | a solved verdict names the first won layout of the final frontier, found within the budget; a dead end has an empty frontier within the budget; exhaustion has spent the budget, ending at exactly maxIterations when it started at or below it; the round count never decreases |
| `Search.RunSeen` | src/CinderblockSolver.cs:89-98 | over a whole search, the seen keys only grow by appending, never repeat, and cover the frontier |
| `CinderblockSolver.FindWin` | src/CinderblockSolver.cs:104-106 | the scan returns the index of the first state whose board is won, as `FirstWin` defines it |
| `CinderblockSolver.DistinctNodes` | src/CinderblockSolver.cs:93-95 | states admitted under distinct keys are distinct states |
| `CinderblockSolver.Solver.constructor` | src/CinderblockSolver.cs:69-74 | the frontier is the root alone; the root's key is the only seen key; the count is zero and the depth is zero |
| `CinderblockSolver.Solver.ChildReached` | src/CinderblockSolver.cs:34-36 | a child of a reached state is reached too, by its parent's trail and its own move, and is unexpanded |
| `CinderblockSolver.Solver.AbsorbOne` | src/CinderblockSolver.cs:92-96 | one child is kept, and its key recorded, exactly as one more step of `Admit` does |
| `CinderblockSolver.Solver.Absorb` | src/CinderblockSolver.cs:91-97 | the inner loop keeps exactly the children `Admit` keeps, in order, and leaves the seen keys `Admit` gives |
| `CinderblockSolver.Solver.ExpandOne` | src/CinderblockSolver.cs:90 | expanding a frontier state gives fresh children holding its child layouts, each reached, unexpanded and one move deeper; the flag is set exactly when the board has a DYNAMO |
| `CinderblockSolver.Solver.ExpandAndAbsorb` | src/CinderblockSolver.cs:90-97 | one frontier state expanded and filtered: the kept states are `Admit`'s, fresh, pending and one move deeper |
| `CinderblockSolver.Solver.FrontierStep` | src/CinderblockSolver.cs:89-97 | one pass of the expansion loop is one more step of `Round` over the frontier |
| `CinderblockSolver.Solver.ExpandEach` | src/CinderblockSolver.cs:89-98 | the whole expansion loop computes `Round` over the frontier |
| `CinderblockSolver.Solver.ExpandFrontier` | src/CinderblockSolver.cs:85-101 | the new frontier and the seen keys are those `Round` gives; the new states are fresh and one level deeper, and the invariant holds again |
| `CinderblockSolver.Solver.FrontierMember` | src/CinderblockSolver.cs:101-105 | every frontier state is reached from the start by its trail, at the frontier's depth, and is not the root once a round has been made |
| `CinderblockSolver.Solver.Advance` | src/CinderblockSolver.cs:84-106 | one round either ends `Search.Solve` with the first won state of the new frontier, or leaves the state from which `Search.Solve` goes on with one more iteration |
| `CinderblockSolver.Solver.Solve` | src/CinderblockSolver.cs:76-113 | the new state is the one `Search.Solve` computes; a result comes back exactly on a solved verdict, and it is the first won state of the final frontier; it is reached, at the frontier's depth, never the root; the depth runs ahead of `Iterations` by one more after a win; the invariant holds again |

## Left out

- `src/CinderblockRenderer.cs`, `src/CinderblockGenerator.cs` and `src/main.cs` are not part of this model. They are drawing, random generation with floating point, file reading, timing and console output.
- Console output in `Solve` and `LogSteps` is left out. `BoardState.Steps` keeps the parent walk and returns the descriptions; the printed move count is the length of that list.
- `Vector2` floating-point arithmetic is left out. Positions and offsets are integers, which agrees with the source only while every coordinate, and every coordinate plus or minus 2, is at most 2^24 in magnitude. `PlacePiece` has no lower bound, and `FromString` accepts rows of any length. So the source can place a piece at a larger coordinate, and it then rounds that coordinate to a neighbouring float. For example, `PlacePiece(CINDER, 16777217, 0)` stores the column 16777216. On such boards the position comparisons in `MovePiece` can match cells the model keeps apart. The key also prints the rounded float, which the model does not capture. Coordinates are written in the key as decimal integers, with a minus sign for negative values; the float's own text format and culture-specific formatting are not modelled.
- A move description is the value `Moved(piece, direction)` or `Start`. `Piece.ToString` and the `"Move ..."` text are left out, because their exact formatting carries no rule.
- `Board.Equals` is left out: it is a one-sided subset test that the solver never calls. `Piece.Equals` is modelled as `Rules.Piece.Equals`, and `Identity.KeyOfEqualPieces` relates it to the key.
- The default arm of `DirectionOffset` returns (0, 0). It cannot be reached with the four directions, so the model has no such case.
- `BoardState.IsTerminal` is modelled as a predicate without a contract of its own. The solver never calls it; `ExpandState` states the flag and the children it depends on.
- `Cinderblock.Board.MovePiece`: an unknown `pid` raises `KeyNotFoundException` in the source. The model requires the id to be a key instead of modelling the exception. Every caller passes the id of a piece on the board.
- `CinderblockSolver.BoardState.ExpandState`: the source appends each child to `children` as soon as it is made, and sets `hasExpanded` once per DYNAMO. The model collects the children first and then appends them, and sets the flag once. The final state is the same, because nothing reads `children` or `hasExpanded` in between.
- Dictionary enumeration order is fixed as insertion order. The .NET `Dictionary` does not promise this order after removals.
- `CinderblockSolver.Solver.Solve`: that the returned state is a shortest solution is not proved. A proof would need the move rule to commute with renaming ids and reordering entries, because a child whose key was seen earlier is dropped in favour of a different board with the same layout. What is proved: the returned state is the first won state of the frontier in generation order, it lies at the frontier's depth, and every frontier state has that depth. The start board itself is never tested for a win, so a start with fewer than two DYNAMOs still yields a state one move deep, when it has a legal move.
- `Search.RunVerdict`: termination on a finite state space is not stated. Every run is bounded by `maxIterations`.
