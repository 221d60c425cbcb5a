/**
 * The older, string-based engine of tictactoe-ui.mjs: the board is the list
 * of the cells' `data-value` attributes (`null` where a cell has none), the
 * player to move is the string `currentPlayer`, and the game-over overlay is
 * a flag and a text. Clicks on a cell run `recordMove`, clicks on the
 * overlay run `clearGameOverOverlay`. The asynchronous `showSVG` write is
 * taken to happen before the next click. The script is taken to run as a
 * classic, non-strict script after the cells exist, so that its assignments
 * to undeclared names (`file`, `element`, `state`, `overlay`) create globals
 * instead of throwing.
 */
module LegacyUi {
  import opened Results
  import opened Symbols
  import opened Lines
  import opened Boards
  import opened Games

  /** The game-over overlay: whether `overlay-active` is set, and its text. */
  datatype Overlay = Overlay(active: bool, text: string)

  /** The page: each cell's `data-value` attribute, the player to move, and the overlay. */
  datatype Ui = Ui(cells: seq<Option<string>>, currentPlayer: string, overlay: Overlay)

  /** What a user can click: cell `cell-i`, or the overlay. */
  datatype Event = CellClick(index: nat) | OverlayClick

  /** `isDraw`: no cell's attribute is "blank" (a missing attribute is not "blank"). */
  predicate IsDraw(state: seq<Option<string>>) {
    forall i :: 0 <= i < |state| ==> state[i] != Some("blank")
  }

  /** `playerHasWon`: the three cells of one of the eight winning triples all hold `player`. */
  predicate PlayerHasWon(state: seq<Option<string>>, player: string) {
    Wins(state, Some(player))
  }

  /** `gameOver`: cross has won, or nought has won, or `isDraw` holds. */
  predicate GameOver(state: seq<Option<string>>) {
    PlayerHasWon(state, "cross") || PlayerHasWon(state, "nought") || IsDraw(state)
  }

  /**
   * The text the overlay is given on a game-over board: a cross win first,
   * then a nought win, then a draw; no text is chosen otherwise.
   */
  function OverlayText(state: seq<Option<string>>): (t: Option<string>)
    ensures t.Some? <==> GameOver(state)
    ensures t == Some("It's a draw!") ==> !PlayerHasWon(state, "cross") && !PlayerHasWon(state, "nought")
    ensures PlayerHasWon(state, "cross") ==> t == Some("Cross wins!")
    ensures !PlayerHasWon(state, "cross") && PlayerHasWon(state, "nought") ==> t == Some("Nought wins!")
    ensures !PlayerHasWon(state, "cross") && !PlayerHasWon(state, "nought") && IsDraw(state) ==>
      t == Some("It's a draw!")
  {
    if PlayerHasWon(state, "cross") then Some("Cross wins!")
    else if PlayerHasWon(state, "nought") then Some("Nought wins!")
    else if IsDraw(state) then Some("It's a draw!")
    else None
  }

  /**
   * The image file `showSVG` fetches for `value`: the cross or nought
   * picture for those names, the blank picture for anything else.
   */
  function SvgFile(value: string): (file: string)
    ensures value != "cross" && value != "nought" ==> file == FilenameFromSymbolName("blank")
  {
    if value == "cross" then "img/cross.svg"
    else if value == "nought" then "img/nought.svg"
    else "img/blank.svg"
  }

  /** For every registered name, `showSVG` fetches the file the symbol registry names. */
  lemma SvgFileMatchesRegistry(m: Marker)
    ensures SvgFile(Name(m)) == FilenameFromSymbolName(Name(m))
  {
  }

  /**
   * `showSVG(cell-i, value)`, once its fetch has completed: the cell's
   * attribute becomes `value`, and if the board is then over, the overlay
   * is activated and given the text for that board.
   */
  function ShowSvg(ui: Ui, i: nat, value: string): (r: Ui)
    requires i < |ui.cells|
    ensures r.cells == ui.cells[i := Some(value)] && r.currentPlayer == ui.currentPlayer
    ensures GameOver(r.cells) ==> r.overlay == Overlay(true, OverlayText(r.cells).value)
    ensures !GameOver(r.cells) ==> r.overlay == ui.overlay
  {
    var cells := ui.cells[i := Some(value)];
    if GameOver(cells) then
      ui.(cells := cells,
          overlay := Overlay(true, if OverlayText(cells).Some? then OverlayText(cells).value else ui.overlay.text))
    else
      ui.(cells := cells)
  }

  /** The board on which every cell's attribute is "blank". */
  function AllBlank(): seq<Option<string>> {
    seq(TotalCells, _ => Some("blank"))
  }

  /** The empty board is not over: no triple is filled, and cell 0 is "blank". */
  lemma AllBlankNotOver()
    ensures !GameOver(AllBlank())
  {
    var e := AllBlank();
    assert e[0] == Some("blank");
  }

  /** The deferred `showSVG(cell-j, "blank")` writes of `resetBoard`, for `j` from `i` on. */
  function ShowAllBlank(ui: Ui, i: nat): Ui
    requires |ui.cells| == TotalCells && i <= TotalCells
    decreases TotalCells - i
  {
    if i == TotalCells then ui else ShowAllBlank(ShowSvg(ui, i, "blank"), i + 1)
  }

  /** On a board that is already all "blank", the deferred writes change nothing. */
  lemma {:induction false} ShowAllBlankOnEmpty(ui: Ui, i: nat)
    requires ui.cells == AllBlank() && i <= TotalCells
    ensures ShowAllBlank(ui, i) == ui
    decreases TotalCells - i
  {
    if i < TotalCells {
      AllBlankNotOver();
      assert ui.cells[i := Some("blank")] == ui.cells;
      ShowAllBlankOnEmpty(ShowSvg(ui, i, "blank"), i + 1);
    }
  }

  /**
   * `resetBoard`: the loop sets every cell's attribute to "blank" and starts
   * one `showSVG` per cell, whose writes land on the board the loop left.
   * The board ends all "blank"; the overlay and the player to move are as
   * they were.
   */
  function ResetBoard(ui: Ui): (r: Ui)
    requires |ui.cells| == TotalCells
    ensures r.cells == AllBlank() && r.currentPlayer == ui.currentPlayer && r.overlay == ui.overlay
  {
    ShowAllBlankOnEmpty(ui.(cells := AllBlank()), 0);
    ShowAllBlank(ui.(cells := AllBlank()), 0)
  }

  /** The turn switch: "cross" hands over to "nought", anything else to "cross". */
  function Flip(player: string): string {
    if player == "cross" then "nought" else "cross"
  }

  /** The clicked cell's attribute, with a missing one read as "blank". */
  function CurrentValue(ui: Ui, i: nat): string
    requires i < |ui.cells|
  {
    if ui.cells[i].Some? then ui.cells[i].value else "blank"
  }

  /**
   * `recordMove(cell-i)`: on a board that is over, reset it and give the
   * first move to cross (the overlay is left as it is); otherwise a click on
   * a "blank" cell marks it for the player to move and passes the turn, and
   * a click on any other cell does nothing.
   */
  function RecordMove(ui: Ui, i: nat): (r: Ui)
    requires |ui.cells| == TotalCells && i < TotalCells
    ensures |r.cells| == TotalCells
    ensures GameOver(ui.cells) ==>
      r.cells == AllBlank() && r.currentPlayer == "cross" && r.overlay == ui.overlay
    ensures !GameOver(ui.cells) && CurrentValue(ui, i) == "blank" ==>
      && r.cells == ui.cells[i := Some(ui.currentPlayer)] && r.currentPlayer == Flip(ui.currentPlayer)
      && (GameOver(r.cells) ==> r.overlay == Overlay(true, OverlayText(r.cells).value))
      && (!GameOver(r.cells) ==> r.overlay == ui.overlay)
    ensures !GameOver(ui.cells) && CurrentValue(ui, i) != "blank" ==> r == ui
  {
    if GameOver(ui.cells) then
      ResetBoard(ui).(currentPlayer := "cross")
    else if CurrentValue(ui, i) == "blank" then
      ShowSvg(ui, i, ui.currentPlayer).(currentPlayer := Flip(ui.currentPlayer))
    else
      ui
  }

  /**
   * `clearGameOverOverlay`: the overlay is deactivated and emptied, the
   * board reset, and cross moves first.
   */
  function ClearGameOverOverlay(ui: Ui): (r: Ui)
    requires |ui.cells| == TotalCells
    ensures r == Ui(AllBlank(), "cross", Overlay(false, ""))
  {
    ResetBoard(ui.(overlay := Overlay(false, ""))).(currentPlayer := "cross")
  }

  /** The page after loading: the script's top-level `resetBoard()` on the initial cells. */
  function Load(cells: seq<Option<string>>, overlay: Overlay): (ui: Ui)
    requires |cells| == TotalCells
    ensures ui == Ui(AllBlank(), "cross", overlay)
  {
    ResetBoard(Ui(cells, "cross", overlay))
  }

  /** The click handlers attached by `attachEventListeners`. */
  function Handle(ui: Ui, e: Event): (r: Ui)
    requires |ui.cells| == TotalCells
    requires e.CellClick? ==> e.index < TotalCells
    ensures |r.cells| == TotalCells
  {
    match e
    case CellClick(i) => RecordMove(ui, i)
    case OverlayClick => ClearGameOverOverlay(ui)
  }

  /** Every cell click is on one of the nine cells. */
  predicate EventsOnBoard(events: seq<Event>) {
    forall k :: 0 <= k < |events| ==> events[k].CellClick? ==> events[k].index < TotalCells
  }

  /** A session: the events handled in order. */
  function Session(ui: Ui, events: seq<Event>): (r: Ui)
    requires |ui.cells| == TotalCells && EventsOnBoard(events)
    ensures |r.cells| == TotalCells
    decreases |events|
  {
    if |events| == 0 then ui else Session(Handle(ui, events[0]), events[1..])
  }

  // ---------------------------------------------------------------------------
  // The invariant of a session
  // ---------------------------------------------------------------------------

  /** The number of cells whose attribute is `v`. */
  function Count(s: seq<Option<string>>, v: string): (n: nat)
    ensures n <= |s|
  {
    if |s| == 0 then 0 else (if s[0] == Some(v) then 1 else 0) + Count(s[1..], v)
  }

  /** Rewriting one cell moves it from one count to another. */
  lemma {:induction false} CountUpdate(s: seq<Option<string>>, i: nat, x: Option<string>, v: string)
    requires i < |s|
    ensures Count(s[i := x], v) == Count(s, v) - (if s[i] == Some(v) then 1 else 0) + (if x == Some(v) then 1 else 0)
  {
    if i > 0 {
      assert s[i := x][1..] == s[1..][i - 1 := x];
      CountUpdate(s[1..], i - 1, x, v);
    }
  }

  /** A board with no cell holding `v` counts none of them. */
  lemma {:induction false} CountAbsent(s: seq<Option<string>>, v: string)
    requires forall i :: 0 <= i < |s| ==> s[i] != Some(v)
    ensures Count(s, v) == 0
  {
    if |s| > 0 {
      CountAbsent(s[1..], v);
    }
  }

  /** A cell holding `v` makes the count of `v` positive. */
  lemma {:induction false} CountPresent(s: seq<Option<string>>, v: string, i: nat)
    requires i < |s| && s[i] == Some(v)
    ensures Count(s, v) > 0
  {
    if i > 0 {
      CountPresent(s[1..], v, i - 1);
    }
  }

  /** The three attribute values the page ever writes. */
  predicate Registered(v: Option<string>) {
    v == Some("blank") || v == Some("cross") || v == Some("nought")
  }

  /**
   * What every reachable page satisfies: nine cells holding registered
   * names; cross has made as many moves as nought when cross is to move,
   * and one more when nought is; and a board that is over shows the overlay
   * with the text for that board.
   */
  ghost predicate Consistent(ui: Ui) {
    && |ui.cells| == TotalCells
    && (forall i :: 0 <= i < TotalCells ==> Registered(ui.cells[i]))
    && (ui.currentPlayer == "cross" || ui.currentPlayer == "nought")
    && Count(ui.cells, "cross") == Count(ui.cells, "nought") + (if ui.currentPlayer == "nought" then 1 else 0)
    && (GameOver(ui.cells) ==> ui.overlay == Overlay(true, OverlayText(ui.cells).value))
  }

  /** A freshly reset board with cross to move is consistent, whatever the overlay shows. */
  lemma ResetConsistent(overlay: Overlay)
    ensures Consistent(Ui(AllBlank(), "cross", overlay))
  {
    AllBlankNotOver();
    CountAbsent(AllBlank(), "cross");
    CountAbsent(AllBlank(), "nought");
  }

  /** The page after loading is consistent. */
  lemma LoadConsistent(cells: seq<Option<string>>, overlay: Overlay)
    requires |cells| == TotalCells
    ensures Consistent(Load(cells, overlay))
  {
    ResetConsistent(overlay);
  }

  /** A move by the player to move keeps the counts in step and passes the turn. */
  lemma MarkConsistent(ui: Ui, i: nat)
    requires Consistent(ui) && i < TotalCells && ui.cells[i] == Some("blank")
    requires !GameOver(ui.cells)
    ensures Consistent(RecordMove(ui, i))
  {
    var cells := ui.cells[i := Some(ui.currentPlayer)];
    CountUpdate(ui.cells, i, Some(ui.currentPlayer), "cross");
    CountUpdate(ui.cells, i, Some(ui.currentPlayer), "nought");
    assert forall j :: 0 <= j < TotalCells ==> Registered(cells[j]);
  }

  /** `recordMove` keeps a page consistent. */
  lemma RecordMoveConsistent(ui: Ui, i: nat)
    requires Consistent(ui) && i < TotalCells
    ensures Consistent(RecordMove(ui, i))
  {
    if GameOver(ui.cells) {
      ResetConsistent(ui.overlay);
    } else if ui.cells[i] == Some("blank") {
      MarkConsistent(ui, i);
    }
  }

  /** `clearGameOverOverlay` keeps a page consistent. */
  lemma ClearConsistent(ui: Ui)
    requires |ui.cells| == TotalCells
    ensures Consistent(ClearGameOverOverlay(ui))
  {
    ResetConsistent(Overlay(false, ""));
  }

  /** Every session from a consistent page ends on a consistent page. */
  lemma {:induction false} SessionConsistent(ui: Ui, events: seq<Event>)
    requires Consistent(ui) && EventsOnBoard(events)
    ensures Consistent(Session(ui, events))
    decreases |events|
  {
    if |events| > 0 {
      match events[0] {
        case CellClick(i) => RecordMoveConsistent(ui, i);
        case OverlayClick => ClearConsistent(ui);
      }
      SessionConsistent(Handle(ui, events[0]), events[1..]);
    }
  }

  /**
   * Termination within nine moves: a move that changes the board removes
   * one "blank" cell, and a board with no "blank" cell left is over.
   */
  lemma MoveCountsDown(ui: Ui, i: nat)
    requires Consistent(ui) && i < TotalCells && !GameOver(ui.cells)
    ensures RecordMove(ui, i) != ui ==>
      Count(RecordMove(ui, i).cells, "blank") == Count(ui.cells, "blank") - 1
    ensures Count(ui.cells, "blank") > 0
  {
    CountUpdate(ui.cells, i, Some(ui.currentPlayer), "blank");
    var j :| 0 <= j < |ui.cells| && ui.cells[j] == Some("blank");
    CountPresent(ui.cells, "blank", j);
  }

  // ---------------------------------------------------------------------------
  // Against the newer engine
  // ---------------------------------------------------------------------------

  /** The attribute list of a board whose squares hold `s`. */
  function Attributes(s: seq<Marker>): (state: seq<Option<string>>)
    ensures |state| == |s|
  {
    seq(|s|, i requires 0 <= i < |s| => Some(Name(s[i])))
  }

  /** A winning triple is filled with `m` exactly when its attributes all name `m`. */
  lemma AttributesWin(s: seq<Marker>, m: Marker)
    ensures PlayerHasWon(Attributes(s), Name(m)) <==> Wins(s, m)
  {
    var a := Attributes(s);
    forall k | 0 <= k < |WinningTriples|
      ensures Completes(a, Some(Name(m)), WinningTriples[k]) <==> Completes(s, m, WinningTriples[k])
    {
      var t := WinningTriples[k];
      if t.0 < |s| && t.1 < |s| && t.2 < |s| {
        NameInjective(s[t.0], m);
        NameInjective(s[t.1], m);
        NameInjective(s[t.2], m);
      }
    }
  }

  /**
   * On a board of registered names the two engines agree on wins and on the
   * game being over, with cross and nought as the players; the legacy draw
   * is the newer engine's "full", not its draw.
   */
  lemma AttributesAgree(s: seq<Marker>)
    ensures PlayerHasWon(Attributes(s), "cross") <==> IsWinner(s, Player(Cross))
    ensures PlayerHasWon(Attributes(s), "nought") <==> IsWinner(s, Player(Nought))
    ensures IsDraw(Attributes(s)) <==> IsFull(s)
    ensures GameOver(Attributes(s)) <==> IsGameOver(s, Player(Cross), Player(Nought))
  {
    AttributesWin(s, Cross);
    AttributesWin(s, Nought);
    var a := Attributes(s);
    forall i | 0 <= i < |s| ensures a[i] == Some("blank") <==> s[i] == Blank {
      NameInjective(s[i], Blank);
    }
  }

  /** A full board with a winning line is a legacy "draw" too; the overlay still reports the win. */
  lemma DrawCanCoincideWithWin()
    ensures var s := Attributes([Cross, Cross, Cross, Nought, Nought, Cross, Nought, Cross, Nought]);
      IsDraw(s) && PlayerHasWon(s, "cross") && OverlayText(s) == Some("Cross wins!")
  {
    var s := Attributes([Cross, Cross, Cross, Nought, Nought, Cross, Nought, Cross, Nought]);
    assert Completes(s, Some("cross"), WinningTriples[0]);
  }
}
