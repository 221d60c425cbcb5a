# Tic-tac-toe in the browser, modelled in Dafny

This project models the tic-tac-toe sample of the python-course repository in
Dafny:

- **Symbol registry.** There are three frozen symbols: blank, cross and
  nought. `symbolForName` looks a symbol up by name, and
  `filenameFromSymbolName` gives the path of its image.
- **`BoardController`.** It has one replaceable listener slot. A click is
  passed on to the listener only when the clicked cell shows the blank symbol.
- **`Board`.** It holds nine DOM cells in row-major order. Each cell has a
  `data-value` attribute and SVG markup. The board provides `reset`,
  `markMove`, `state`, `allCells` and `cellByIndex`.
- **`Game`.** It holds the win, full, draw and game-over tests, and the
  `play` loop, which alternates the two players until the game is over and
  then reports the winner.
- **`Application`.** It plays match after match on one board and swaps who
  moves first after every match.
- **The older `tictactoe-ui.mjs` page.** It is a string-based engine with its
  own `playerHasWon`, `isDraw` and `gameOver`. It also has the click state
  machine `recordMove` and the overlay handler `clearGameOverOverlay`.
- **`fibonacci.py`.** It builds the list of the first `n` Fibonacci numbers.

## Files

| file | module | contents |
|---|---|---|
| results.dfy | `Results` | `Option` and `Result` (the error path of a throwing call) |
| symbol.dfy | `Symbols` | markers, symbols, the registry, `SymbolForName`, file names |
| board_controller.dfy | `BoardControllers` | the listener slot and `ProcessEvent` |
| board.dfy | `Boards` | cells, the board, `Reset`, `MarkMove`, `State`, `Displays` |
| lines.dfy | `Lines` | the eight winning triples, and the same lines read as rows, columns and diagonals |
| game.dfy | `Games` | terminal tests, the reference `Replay` of a move list, the `play` loop and its correctness |
| application.dfy | `Applications` | the application, `run` over a sequence of click streams, and fairness |
| legacy_ui.dfy | `LegacyUi` | the older page, its invariant, and how it compares with `Games` |
| fibonacci.dfy | `Fibonacci` | `Fib`, the `fibonacci` method, and the prefix property |

### How the pieces are represented

- **Board state.** A board's state is the sequence of `Marker`s that its cells'
  attributes decode to. The game's rules are predicates over that sequence.
  `Boards.Displays(b, s)` says that board `b` shows state `s`.
  `Boards.DisplaysIffState` proves this holds exactly when `b` is well formed
  and `s` is its decoded `state`.
- **Players and clicks.** A human player's `makeMove` (player.mjs) registers a
  fresh handler with the controller and waits for it to be called. In the
  model, the handler of move `k` is identified by the number `k`. The clicks
  arrive as a finite sequence of cell indices. `Games.PlayFrom` takes them one
  at a time:
  - a click the controller delivers resolves the move;
  - the cell is marked and the turn passes;
  - the loop condition is read again;
  - while the game is not over, the next handler is registered.

  A match either finishes (`Finished`) or is still waiting for a move when the
  clicks run out (`Suspended`).
- **The loop's copy of the state.** The loop carries the board's decoded
  state next to the board. `Games.PlayFromDecodes` proves that the copy is
  always what the board decodes to.
- **The application's run.** It is a sequence of matches, each with its own
  click stream. A run stops after the first match that does not finish.

## Model

| member | source | states |
|---|---|---|
| Symbols.SymbolOf | src/nfn/samples/chapter5/tictactoe-ui/js/symbol.mjs:97-106 | `make(name)` for a registry entry: the symbol carries that entry's name and the content of the file `filenameFromSymbolName(name)` names |
| Symbols.RegistryIsExactlyThree | src/nfn/samples/chapter5/tictactoe-ui/js/symbol.mjs:118-128 | the frozen registry holds blank, cross and nought, each once, under three distinct names |
| Symbols.NameInjective | src/nfn/samples/chapter5/tictactoe-ui/js/symbol.mjs:118-122 | two registry entries with the same name are the same entry |
| Symbols.FindByName | src/nfn/samples/chapter5/tictactoe-ui/js/symbol.mjs:137-141 | the search loop finds an entry whose name matches, and finds nothing exactly when no entry has that name |
| Symbols.SymbolForName | src/nfn/samples/chapter5/tictactoe-ui/js/symbol.mjs:136-143 | the result is the entry with the given name; the lookup fails exactly for names other than "blank", "cross" and "nought", with the message "Symbol not found for name: " followed by the name |
| Symbols.SymbolForNameRoundTrip | src/nfn/samples/chapter5/tictactoe-ui/js/symbol.mjs:136-143 | looking up the name of any registered symbol gives that symbol back |
| Symbols.FilenameFromSymbolName | src/nfn/samples/chapter5/tictactoe-ui/js/symbol.mjs:81-83 | the path is "img/", then the name, then ".svg" |
| Symbols.SymbolNameFromFilename | src/nfn/samples/chapter5/tictactoe-ui/js/symbol.mjs:81-83 | helper (reference inverse): a path has a symbol name exactly when it has the form `img/<name>.svg`, and building the path from that name gives the path back |
| Symbols.FilenameRoundTrip | src/nfn/samples/chapter5/tictactoe-ui/js/symbol.mjs:81-83 | the name can be read back from the path built for it |
| BoardControllers.NewController | src/nfn/samples/chapter5/tictactoe-ui/js/board-controller.mjs:69-72 | a new controller has no listener |
| BoardControllers.RegisterListener | src/nfn/samples/chapter5/tictactoe-ui/js/board-controller.mjs:105-107 | the registered handler becomes the only listener, whatever was registered before |
| BoardControllers.ProcessEvent | src/nfn/samples/chapter5/tictactoe-ui/js/board-controller.mjs:115-120 | a click throws exactly when the cell's attribute is not a registered name; the listener `h` is called with the clicked cell exactly when the attribute is "blank" and `h` is registered |
| BoardControllers.OccupiedCellIgnored | src/nfn/samples/chapter5/tictactoe-ui/js/board-controller.mjs:115-120 | a click on a cross or nought cell never reaches the listener |
| BoardControllers.NoListenerNoOp | src/nfn/samples/chapter5/tictactoe-ui/js/board-controller.mjs:69-72 | with no listener registered, a click on a registered value does nothing |
| BoardControllers.LastRegistrationWins | src/nfn/samples/chapter5/tictactoe-ui/js/board-controller.mjs:105-120 | after two registrations, a blank click reaches only the second handler |
| Boards.TotalCellsIsNine | docs/js/board.mjs:65-71 | helper (unfolds the constants): the board is 3 by 3, so it has 9 cells |
| Boards.AllCells | docs/js/board.mjs:101-107 | `allCells` visits the cell indices 0 to 8, in order |
| Boards.CellByIndex | docs/js/board.mjs:116-118 | there is a cell for an index exactly when the index is between 0 and the number of cells (0 to 8 on the nine-cell board), and it is that cell; any other index gives `null` |
| Boards.Decode | docs/js/board.mjs:160-169 | decoding succeeds exactly when every attribute is a registered name; it then yields one marker per cell with that name; otherwise it fails with the error of the first cell that does not decode, as `map` throws there |
| Boards.WellFormedIffRegisteredNames | docs/js/board.mjs:160-169 | `state` succeeds exactly when each of the nine attributes is "blank", "cross" or "nought" |
| Boards.SquaresDecodeCells | docs/js/board.mjs:160-169 | square `i` is the symbol named by cell `i`'s attribute, and it is blank exactly when the attribute is "blank" |
| Boards.DisplaysIffState | docs/js/board.mjs:160-169 | the cells carry the names of `s` exactly when the board is well formed and its state is `s` |
| Boards.DisplaysBlank | docs/js/board.mjs:160-169 | a displayed square is blank exactly when its cell's attribute is "blank" |
| Boards.Reset | docs/js/board.mjs:125-136 | every cell gets the blank symbol's name and markup, the controller is untouched, and the board then displays the all-blank state |
| Boards.ResetState | docs/js/board.mjs:125-136 | after `reset` the board is well formed and its state is all blank |
| Boards.ResetIdempotent | docs/js/board.mjs:125-136 | resetting twice is the same as resetting once |
| Boards.NewBoard | docs/js/board.mjs:89-92 | a new board displays the all-blank state, and its controller has no listener |
| Boards.RewriteOneSquare | docs/js/board.mjs:149-152 | writing a registered name into one cell of a well-formed board keeps it well formed and changes only that square |
| Boards.MarkMove | docs/js/board.mjs:149-152 | the marked cell shows the symbol's name and markup; every other cell and the controller are unchanged |
| Boards.MarkMoveSquares | docs/js/board.mjs:149-152 | `markMove` on a well-formed board changes its state in the marked square only, to the symbol written |
| Boards.MarkMoveDisplays | docs/js/board.mjs:149-152 | a board showing `s` shows `s` with the marked square updated after `markMove` |
| Lines.WinsIffThreeInARow | docs/js/game.mjs:91-107 | the table of eight triples used by `isWinner` lists exactly the three rows, three columns and two diagonals of the 3 by 3 grid |
| Lines.LoneTripleWins | docs/js/game.mjs:91-107 | a board with only one triple filled with `x`, and `y` everywhere else, is a win for `x` and for no third value |
| Lines.WinsAfterOtherMark | docs/js/game.mjs:91-107 | writing one value into one square cannot create a win for a different value |
| Games.Winner | docs/js/game.mjs:170-173 | the reported winner is the first player if it has won, else the second player if it has won; on a finished board, `null` is reported exactly for a draw |
| Games.DrawIsGameOver | docs/js/game.mjs:130-144 | a draw is a game over; a game is over exactly when it is a draw or one player has won |
| Games.IsFullIffNoBlank | docs/js/game.mjs:116-120 | the board is full exactly when its count of blank squares is zero |
| Games.CountBlankUpdate | docs/js/game.mjs:116-120 | marking a blank square with a non-blank symbol removes exactly one blank square |
| Games.ReplayAppend | docs/js/game.mjs:164-168 | helper (unfolds `Replay` once): replaying one more move marks that cell with the symbol of the player whose turn it is |
| Games.ReplayAlternates | docs/js/game.mjs:164-168 | in the state a valid move list reaches, move `k` shows the first player's symbol when `k` is even and the second player's when `k` is odd; every unplayed cell is blank |
| Games.ReplayCountsDown | docs/js/game.mjs:164-168 | after `k` valid moves, `9 - k` squares are blank, so a match has at most nine moves |
| Games.OtherIsNextMover | docs/js/game.mjs:167 | the turn switch hands the move to the player whose turn comes next |
| Games.ClickOnState | src/nfn/samples/chapter5/tictactoe-ui/js/board-controller.mjs:115-120 | on a board showing `s`, with a handler registered, a click never throws, and it is delivered exactly when the clicked square is blank |
| Games.PlayFromDecodes | docs/js/game.mjs:164-168 | the state the loop reads is always what the board decodes to; a match still waiting has the handler for its next move registered |
| Games.ReplayStep | docs/js/game.mjs:164-168 | one turn on a blank square keeps the loop invariant: the state is the replay of the moves, the player to move is the one whose turn it is, and no earlier state was over |
| Games.PlayFromReplays | docs/js/game.mjs:161-176 | the loop's outcome is the replay of its moves; it finished exactly when the game is over, and its winner follows the tie-break |
| Games.PlayFromDrawsOnClicks | docs/js/game.mjs:164-168 | the moves of the loop extend the moves it started with, using cells clicked from the current position on |
| Games.PlayFromWaitsOnOccupied | docs/js/game.mjs:164-168 | the loop never changes an occupied square, and it is left waiting only when every remaining click was on an occupied square |
| Games.StartInvariant | docs/js/game.mjs:162-164 | the reset board is not a game over, and the loop starts from its invariant with no move made |
| Games.PlayCorrect | docs/js/game.mjs:161-176 | after `play`, the board is well formed and in the state reached by replaying the accepted moves from the empty board, the first player opening; no cell is played twice; the loop ran exactly while the game was not over; the winner is as the tie-break says, `null` exactly for a draw; a waiting match has the right player to move, with its handler registered |
| Games.PlayAlternates | docs/js/game.mjs:161-168 | the moves of `play` are clicked cells, at most nine of them; the players' symbols alternate over them, and the cells not played stay blank |
| Games.ClickedEverywhereIsFull | docs/js/game.mjs:116-120 | a state in which every cell was clicked and every clicked cell is occupied is full |
| Games.PlayFinishesWhenEveryCellClicked | docs/js/game.mjs:161-176 | a click stream that touches every cell always brings the match to its end |
| Games.OnlyLastMoverWins | docs/js/game.mjs:164-173 | in a state reached without an earlier game over, only the player who made the last move can have won, and nobody has won before any move |
| Games.PlayWinnerMovedLast | docs/js/game.mjs:170-173 | the tie-break never has to choose, because at most one player has won; a reported winner is the player who moved last |
| Games.PlayStartsEmpty | docs/js/game.mjs:161-165 | before any click, `play` has reset the board to all blank and waits for the first player's move 0 |
| Applications.NewApplication | src/nfn/samples/chapter5/tictactoe-ui/js/application.mjs:66-71 | a new application has a reset board with no listener, a cross player and a nought player |
| Applications.RunFrom | src/nfn/samples/chapter5/tictactoe-ui/js/application.mjs:85-97 | a run has at most one match per click stream, and at least one when there is a stream |
| Applications.RolesShift | src/nfn/samples/chapter5/tictactoe-ui/js/application.mjs:92-95 | two swaps give the players back; one swap exchanges first and second |
| Applications.RunFromUnfold | src/nfn/samples/chapter5/tictactoe-ui/js/application.mjs:89-96 | helper (unfolds `RunFrom` once): after a finished match, the run goes on with the players swapped, on the board that match left |
| Applications.RunFromRoles | src/nfn/samples/chapter5/tictactoe-ui/js/application.mjs:86-96 | match `k` is played by the starting pair when `k` is even and by the swapped pair when `k` is odd |
| Applications.RunFromStops | src/nfn/samples/chapter5/tictactoe-ui/js/application.mjs:89-91 | every match but the last has finished; a run that stops before its streams run out stops after a match still waiting |
| Applications.RunFromThreadsBoard | src/nfn/samples/chapter5/tictactoe-ui/js/application.mjs:90-91 | match `k` is `play` with the `k`-th click stream, on the board the previous match left |
| Applications.RunSwapsFirstPlayer | src/nfn/samples/chapter5/tictactoe-ui/js/application.mjs:85-96 | cross opens match `k` exactly when `k` is even, and every match is between cross and nought |
| Applications.PlayedMatchCorrect | src/nfn/samples/chapter5/tictactoe-ui/js/application.mjs:90-91 | a match played with cross and nought is a correct match of `play` |
| Applications.RunMatchesCorrect | src/nfn/samples/chapter5/tictactoe-ui/js/application.mjs:85-97 | every match of a run on a new application is a correct match of `play`, whoever opens it |
| LegacyUi.OverlayText | src/nfn/samples/chapter5/tictactoe-ui/js/tictactoe-ui.mjs:55-64 | a text is chosen exactly when the game is over; "Cross wins!" whenever cross has won; "Nought wins!" when only nought has won; "It's a draw!" exactly when nobody has won and no cell is "blank" |
| LegacyUi.SvgFile | src/nfn/samples/chapter5/tictactoe-ui/js/tictactoe-ui.mjs:37-43 | any value other than "cross" and "nought" is shown with the blank image |
| LegacyUi.SvgFileMatchesRegistry | src/nfn/samples/chapter5/tictactoe-ui/js/tictactoe-ui.mjs:37-43 | for each registered name, `showSVG` fetches the file the symbol registry names |
| LegacyUi.ShowSvg | src/nfn/samples/chapter5/tictactoe-ui/js/tictactoe-ui.mjs:46-66 | the written cell takes the value; on a board that is then over, the overlay is activated with the text for that board; otherwise the overlay is unchanged |
| LegacyUi.AllBlankNotOver | src/nfn/samples/chapter5/tictactoe-ui/js/tictactoe-ui.mjs:8-34 | the all-blank board is not over |
| LegacyUi.ShowAllBlankOnEmpty | src/nfn/samples/chapter5/tictactoe-ui/js/tictactoe-ui.mjs:86-92 | on an all-blank board, the deferred blank writes of `resetBoard` change nothing, and they never raise the overlay |
| LegacyUi.ResetBoard | src/nfn/samples/chapter5/tictactoe-ui/js/tictactoe-ui.mjs:86-92 | every cell ends "blank"; the overlay and the player to move are unchanged |
| LegacyUi.RecordMove | src/nfn/samples/chapter5/tictactoe-ui/js/tictactoe-ui.mjs:71-84 | on a board that is over, a click resets it and gives the move to cross, leaving the overlay as it is; otherwise a click on a blank or attribute-less cell marks it for the player to move and flips the player, raising the overlay with its text when that move ends the game and leaving the overlay alone otherwise; any other click changes nothing |
| LegacyUi.ClearGameOverOverlay | src/nfn/samples/chapter5/tictactoe-ui/js/tictactoe-ui.mjs:94-100 | the overlay becomes inactive with empty text, the board all blank, and cross moves next |
| LegacyUi.Load | src/nfn/samples/chapter5/tictactoe-ui/js/tictactoe-ui.mjs:115 | once the script has run its top-level `resetBoard()`, the board is all blank and cross, the initial `currentPlayer`, moves first |
| LegacyUi.Handle | src/nfn/samples/chapter5/tictactoe-ui/js/tictactoe-ui.mjs:103-112 | a cell click runs `recordMove` and an overlay click runs `clearGameOverOverlay`; the page keeps nine cells |
| LegacyUi.CountUpdate | src/nfn/samples/chapter5/tictactoe-ui/js/tictactoe-ui.mjs:79-82 | rewriting one cell moves it from one value's count to the other's |
| LegacyUi.ResetConsistent | src/nfn/samples/chapter5/tictactoe-ui/js/tictactoe-ui.mjs:74-77 | a reset board with cross to move satisfies the page invariant, whatever the overlay shows |
| LegacyUi.LoadConsistent | src/nfn/samples/chapter5/tictactoe-ui/js/tictactoe-ui.mjs:115 | the page satisfies its invariant once loaded |
| LegacyUi.MarkConsistent | src/nfn/samples/chapter5/tictactoe-ui/js/tictactoe-ui.mjs:79-82 | marking a blank cell and flipping the player keeps cross's count equal to nought's, or one more when nought is to move, and leaves an over board showing its overlay text |
| LegacyUi.RecordMoveConsistent | src/nfn/samples/chapter5/tictactoe-ui/js/tictactoe-ui.mjs:71-84 | `recordMove` keeps the page invariant |
| LegacyUi.ClearConsistent | src/nfn/samples/chapter5/tictactoe-ui/js/tictactoe-ui.mjs:94-100 | `clearGameOverOverlay` leads to a page that satisfies the invariant |
| LegacyUi.SessionConsistent | src/nfn/samples/chapter5/tictactoe-ui/js/tictactoe-ui.mjs:103-112 | any sequence of cell and overlay clicks keeps the page invariant |
| LegacyUi.MoveCountsDown | src/nfn/samples/chapter5/tictactoe-ui/js/tictactoe-ui.mjs:74-82 | before the game is over there is a blank cell, and each effective click removes exactly one blank cell, so a game ends within nine moves |
| LegacyUi.AttributesWin | src/nfn/samples/chapter5/tictactoe-ui/js/tictactoe-ui.mjs:12-30 | `playerHasWon` on a board of registered names agrees with the win test over the decoded symbols |
| LegacyUi.AttributesAgree | src/nfn/samples/chapter5/tictactoe-ui/js/tictactoe-ui.mjs:8-34 | on boards of registered names, both engines agree on wins and on game over, with cross and nought as the players; the legacy draw is the newer engine's "full" |
| LegacyUi.DrawCanCoincideWithWin | src/nfn/samples/chapter5/tictactoe-ui/js/tictactoe-ui.mjs:8-10 | a full board with a cross line counts as a legacy draw, and the overlay still reports "Cross wins!" |
| Fibonacci.SlicePrefix | src/nfn/samples/chapter5/fibonacci.py:14 | Python's `[:n]`: the first `n` items, clamped at the end; a negative `n` drops that many items from the end |
| Fibonacci.Fibonacci | src/nfn/samples/chapter5/fibonacci.py:5-14 | the result has `n` entries for `n >= 0`, `[0]` for `n = -1` and none below; entry `i` is F(i), so the list starts 0, 1 and each later entry is the sum of the two before it |
| Fibonacci.FibonacciPrefix | src/nfn/samples/chapter5/fibonacci.py:11-14 | for `0 <= m <= n`, the list for `m` is the first `m` entries of the list for `n` |
| Fibonacci.ResultNonDecreasing | src/nfn/samples/chapter5/fibonacci.py:11-14 | the returned list never decreases, and from entry 3 on each entry is larger than the one before it |

## Left out

- The DOM and `fetch` are not modelled (symbol.mjs `loadFrom`, and the
  `fetch` in `showSVG`). The served files are an `Assets` value that maps each
  path to its text. `Symbols.SymbolOf` reads a symbol's markup from it at the
  path `filenameFromSymbolName` gives.
- The markup `showSVG` writes is not modelled. Only the attribute is.
- `console.log` and `console.error` are not modelled.
- The game-over modal (game-over-modal.mjs) is not modelled. `display` and
  `dismissed` are taken as an immediate end of the match, so a run goes
  straight on to the next match.
- The `play` loop and `run` loop wait for clicks forever. The model takes a
  finite click sequence per match, and a finite sequence of streams per run.
  A match whose clicks run out is returned as `Suspended`.
- Player.makeMove (player.mjs) is modelled inside `Games.PlayFrom`: registering
  the handler, then the first click the controller delivers. Handlers are
  identified by move number rather than by closure identity.
- Board.controller (docs/js/board.mjs:175-177, and lines 47-49 of the
  sample's copy) is a getter and is modelled as the
  `controller` field. `BoardController`'s private `#attachEventListeners`
  (board-controller.mjs:83-89) is the event wiring. Every click in the
  model's click sequence is a click it forwards.
- `isFull(this.board)` passes an argument that `isFull` ignores. The model has
  no argument.
- `isWinner` and `isFull` in the source decode each cell as they go. The model
  evaluates them over the decoded state. `Games.PlayFromDecodes` and
  `Boards.DisplaysIffState` show that the state the loop reads is exactly what
  the board decodes to.
- The source has two copies of the board and game classes: docs/js, and
  src/nfn/samples/chapter5/tictactoe-ui/js. The model table cites the docs
  copy, and both copies share one model. Their code is the same, apart from
  the sample's `reset`, which clears each cell through a private method
  (board.mjs:27-36) with the same effect. In the sample, `isWinner` is
  game.mjs:11-27, the terminal tests are 29-49, and `play` is 51-65.
- tictactoe-ui.mjs `showSVG` writes after an asynchronous fetch. The model
  applies each write before the next click. In `resetBoard` it keeps the
  real order: all nine attributes are set to "blank" first, and the deferred
  writes land afterwards. The markup written to the cell is not modelled.
  Only the attribute and the overlay are.
- tictactoe-ui.mjs `boardState`: a cell without a `data-value` attribute
  appears as `None`. `isDraw` treats it as non-blank. `recordMove` treats it as
  "blank". The model keeps both readings. `LegacyUi.Consistent` holds only once
  the page has been loaded, because loading writes "blank" into every cell.
- tictactoe-ui.mjs assigns names it never declares: `file` (lines 38-42),
  `element` (47), `state` (50) and `overlay` (52 and 109). The model assumes
  the page loads it as a classic, non-strict script, after the cells exist,
  so these assignments create globals. If it were loaded as an ES module, as
  the `.mjs` extension suggests, strict mode would apply. The first `showSVG`
  would then throw a ReferenceError at line 42. The top-level `resetBoard()`
  would stop after cell-0, and the listeners of line 116 would never be
  attached. `LegacyUi.Load` and everything built on it describe the page
  under the classic-script assumption only.
- tictactoe-ui.mjs reads the board through `querySelectorAll(".cell")` in
  document order (line 4). `recordMove`, `resetBoard` and the listeners
  address cells by the id `cell-${i}` (lines 88-90 and 105-106). The model
  uses one index for both. This assumes the page's nine `.cell` elements are
  exactly `cell-0` to `cell-8`, in that order.
- The failure path of `make` (symbol.mjs:103-106) is not modelled: a fetch
  that fails, and the error it rethrows. `Assets` gives every path some
  content.
- tictactoe-ui2.mjs and js-enabled.js are not part of this model.

## Findings

Nothing here was executed. Within its assumptions, the model found no
discrepancy between the source and its evident intent that could be shown
with a concrete input. One of those assumptions is unverified: that
tictactoe-ui.mjs runs as a classic script (see "## Left out"). Loaded as a
module, its undeclared assignments would throw. Two behaviours are worth
knowing, and both are proved:

- In tictactoe-ui.mjs, a click on a finished board resets it but leaves the
  overlay active. This is stated in `LegacyUi.RecordMove`.
- The legacy `isDraw` is true on a full board that has a winning line. The
  overlay still reports the win, because its text checks wins first. See
  `LegacyUi.DrawCanCoincideWithWin`.
