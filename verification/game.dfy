/**
 * The `Game` of game.mjs: the win, full, draw and game-over tests over the
 * board's decoded state, and the `play` loop. A player's `makeMove` is
 * modelled as "register a fresh handler with the board's controller, then
 * take the first click the controller delivers"; the clicks arrive as a
 * finite input sequence, and the result of `play` is either a finished match
 * or a match still waiting for a move when the clicks run out.
 */
module Games {
  import opened Results
  import opened Symbols
  import opened BoardControllers
  import opened Boards
  import opened Lines

  /** A player: the symbol it marks its moves with. */
  datatype Player = Player(symbol: Marker)

  /** One match: who moves first and second, and the shared board. */
  datatype Game = Game(first: Player, second: Player, board: Board)

  /**
   * A match that ended, with its winner (`null` for a draw), or one still
   * waiting for `current` to move; `state` is the board's state as the loop
   * condition last read it, and `moves` the cells marked, in order.
   */
  datatype Outcome =
    | Finished(board: Board, state: seq<Marker>, moves: seq<nat>, winner: Option<Player>)
    | Suspended(board: Board, state: seq<Marker>, moves: seq<nat>, current: Player)

  // ---------------------------------------------------------------------------
  // Terminal tests over a decoded state `s`
  // ---------------------------------------------------------------------------

  /** `isWinner(p)`: one of the eight winning triples is filled with `p`'s symbol. */
  predicate IsWinner(s: seq<Marker>, p: Player) {
    Wins(s, p.symbol)
  }

  /** `isFull`: no cell holds Blank. */
  predicate IsFull(s: seq<Marker>) {
    forall i :: 0 <= i < |s| ==> s[i] != Blank
  }

  /** `isDraw`: neither player has won and the board is full. */
  predicate IsDraw(s: seq<Marker>, first: Player, second: Player) {
    !IsWinner(s, first) && !IsWinner(s, second) && IsFull(s)
  }

  /** `isGameOver`: either player has won, or the board is full. */
  predicate IsGameOver(s: seq<Marker>, first: Player, second: Player) {
    IsWinner(s, first) || IsWinner(s, second) || IsFull(s)
  }

  /**
   * The winner `play` reports: the first player if it has won, else the
   * second if it has won, else `null`. On a finished board `null` means a draw.
   */
  function Winner(s: seq<Marker>, first: Player, second: Player): (w: Option<Player>)
    ensures w.Some? ==> (w.value == first || w.value == second) && IsWinner(s, w.value)
    ensures IsWinner(s, first) ==> w == Some(first)
    ensures w == Some(second) && second != first ==> !IsWinner(s, first)
    ensures IsGameOver(s, first, second) ==> (w.None? <==> IsDraw(s, first, second))
  {
    if IsWinner(s, first) then Some(first)
    else if IsWinner(s, second) then Some(second)
    else None
  }

  /** A draw is a game over, and a game is over exactly by a draw or by a win. */
  lemma DrawIsGameOver(s: seq<Marker>, first: Player, second: Player)
    ensures IsDraw(s, first, second) ==> IsGameOver(s, first, second)
    ensures IsGameOver(s, first, second) <==>
      IsDraw(s, first, second) || IsWinner(s, first) || IsWinner(s, second)
  {
  }

  /** The number of Blank cells. */
  function CountBlank(s: seq<Marker>): (n: nat)
    ensures n <= |s|
  {
    if |s| == 0 then 0 else (if s[0] == Blank then 1 else 0) + CountBlank(s[1..])
  }

  /** A board is full exactly when it has no Blank cell left. */
  lemma {:induction false} IsFullIffNoBlank(s: seq<Marker>)
    ensures IsFull(s) <==> CountBlank(s) == 0
  {
    if |s| > 0 {
      IsFullIffNoBlank(s[1..]);
      assert IsFull(s) <==> s[0] != Blank && IsFull(s[1..]) by {
        if s[0] != Blank && IsFull(s[1..]) {
          forall i | 0 <= i < |s| ensures s[i] != Blank {
            if i > 0 { assert s[i] == s[1..][i - 1]; }
          }
        }
      }
    }
  }

  /** Writing a non-Blank marker into a Blank cell removes exactly one Blank. */
  lemma {:induction false} CountBlankUpdate(s: seq<Marker>, i: nat, m: Marker)
    requires i < |s| && s[i] == Blank && m != Blank
    ensures CountBlank(s[i := m]) == CountBlank(s) - 1
  {
    if i > 0 {
      assert s[i := m][1..] == s[1..][i - 1 := m];
      CountBlankUpdate(s[1..], i - 1, m);
    }
  }

  /** A sequence of Blanks of length `n` has `n` Blanks. */
  lemma {:induction false} CountBlankAllBlank(s: seq<Marker>)
    requires forall i :: 0 <= i < |s| ==> s[i] == Blank
    ensures CountBlank(s) == |s|
  {
    if |s| > 0 {
      CountBlankAllBlank(s[1..]);
    }
  }

  // ---------------------------------------------------------------------------
  // Reference: the state reached by a list of moves
  // ---------------------------------------------------------------------------

  /** The player who makes move `k` (0-based): the first on even moves, the second on odd ones. */
  function Mover(first: Player, second: Player, k: nat): Player {
    if k % 2 == 0 then first else second
  }

  /** The turn switch of `play`: `current === first ? second : first`. */
  function Other(first: Player, second: Player, current: Player): Player {
    if current == first then second else first
  }

  /** The turn switch hands the move to the player of the next turn. */
  lemma OtherIsNextMover(first: Player, second: Player, k: nat)
    ensures Other(first, second, Mover(first, second, k)) == Mover(first, second, k + 1)
  {
  }

  /** Every click is on one of the board's cells. */
  predicate OnBoard(clicks: seq<nat>) {
    forall k :: 0 <= k < |clicks| ==> clicks[k] < TotalCells
  }

  /** Move lists on the board: every index is a cell, and no cell is played twice. */
  predicate ValidMoves(moves: seq<nat>) {
    && (forall k :: 0 <= k < |moves| ==> moves[k] < TotalCells)
    && (forall j, k :: 0 <= j < k < |moves| ==> moves[j] != moves[k])
  }

  /** The state reached from the empty board by marking `moves` in turn, first player first. */
  function Replay(moves: seq<nat>, first: Player, second: Player): (s: seq<Marker>)
    requires forall k :: 0 <= k < |moves| ==> moves[k] < TotalCells
    ensures |s| == TotalCells
  {
    if |moves| == 0 then EmptySquares()
    else
      var n := |moves| - 1;
      Replay(moves[..n], first, second)[moves[n] := Mover(first, second, n).symbol]
  }

  /** No state before the last move of `moves` was a game over. */
  ghost predicate NeverOverBefore(moves: seq<nat>, first: Player, second: Player)
    requires forall k :: 0 <= k < |moves| ==> moves[k] < TotalCells
  {
    forall k :: 0 <= k < |moves| ==> !IsGameOver(Replay(moves[..k], first, second), first, second)
  }

  /** Replaying one more move marks that cell with the mover of that turn. */
  lemma ReplayAppend(moves: seq<nat>, c: nat, first: Player, second: Player)
    requires forall k :: 0 <= k < |moves| ==> moves[k] < TotalCells
    requires c < TotalCells
    ensures Replay(moves + [c], first, second)
            == Replay(moves, first, second)[c := Mover(first, second, |moves|).symbol]
  {
    assert (moves + [c])[..|moves|] == moves;
  }

  /**
   * Alternation: in the state reached by a valid move list, move `k` shows
   * the first player's symbol when `k` is even and the second's when `k` is
   * odd, and every cell not played is Blank.
   */
  lemma {:induction false} ReplayAlternates(moves: seq<nat>, first: Player, second: Player)
    requires ValidMoves(moves)
    ensures forall k :: 0 <= k < |moves| ==>
      Replay(moves, first, second)[moves[k]] == Mover(first, second, k).symbol
    ensures forall i :: 0 <= i < TotalCells && i !in moves ==> Replay(moves, first, second)[i] == Blank
  {
    if |moves| > 0 {
      var n := |moves| - 1;
      var init := moves[..n];
      assert ValidMoves(init);
      ReplayAlternates(init, first, second);
      forall k | 0 <= k < n
        ensures Replay(moves, first, second)[moves[k]] == Mover(first, second, k).symbol
      {
        assert init[k] == moves[k];
      }
    }
  }

  /** Dropping the last move of a valid move list leaves a valid list that does not contain it. */
  lemma ValidPrefix(moves: seq<nat>)
    requires ValidMoves(moves) && |moves| > 0
    ensures ValidMoves(moves[..|moves| - 1]) && moves[|moves| - 1] !in moves[..|moves| - 1]
  {
  }

  /** A cell that no move of a valid move list plays is Blank in its replay. */
  lemma UnplayedIsBlank(moves: seq<nat>, c: nat, first: Player, second: Player)
    requires ValidMoves(moves) && c < TotalCells && c !in moves
    ensures Replay(moves, first, second)[c] == Blank
  {
    ReplayAlternates(moves, first, second);
  }

  /**
   * The Blank count falls by one per move: after a valid move list by two
   * players with non-Blank symbols, `9 - |moves|` cells are Blank, so no
   * valid move list has more than nine moves.
   */
  lemma {:induction false} ReplayCountsDown(moves: seq<nat>, first: Player, second: Player)
    requires ValidMoves(moves)
    requires first.symbol != Blank && second.symbol != Blank
    ensures CountBlank(Replay(moves, first, second)) == TotalCells - |moves|
    ensures |moves| <= TotalCells
  {
    if |moves| == 0 {
      CountBlankAllBlank(EmptySquares());
    } else {
      var n := |moves| - 1;
      var init := moves[..n];
      ValidPrefix(moves);
      ReplayCountsDown(init, first, second);
      UnplayedIsBlank(init, moves[n], first, second);
      CountBlankUpdate(Replay(init, first, second), moves[n], Mover(first, second, n).symbol);
    }
  }

  // ---------------------------------------------------------------------------
  // The play loop
  // ---------------------------------------------------------------------------

  /**
   * The board once a human player's `makeMove` has registered its handler
   * with the controller; the handler of move `k` is identified by `k`.
   */
  function Awaiting(b: Board, h: Handler): (b': Board)
    ensures b'.cells == b.cells && b'.controller.listener == Some(h)
  {
    b.(controller := RegisterListener(b.controller, h))
  }

  /**
   * The `while (!isGameOver())` loop of `play`, at the point where `current`
   * has registered the handler for move `|moves|` and the clicks from
   * position `pos` on are still to come. Each click goes through the
   * controller: one it delivers resolves the move, which is marked on the
   * board; the turn passes, the loop condition is read again, and while the
   * game is not over the next `makeMove` registers its handler. Any other
   * click (on an occupied cell, or on a cell whose attribute does not
   * decode, which throws inside the click handler) is lost. The loop carries
   * the board's state as `s`; `PlayFromDecodes` shows it is what the board
   * decodes to.
   */
  function PlayFrom(b: Board, s: seq<Marker>, assets: Assets, first: Player, second: Player,
                    current: Player, moves: seq<nat>, clicks: seq<nat>, pos: nat): Outcome
    requires |b.cells| == TotalCells && |s| == TotalCells && pos <= |clicks|
    requires OnBoard(clicks)
    decreases |clicks| - pos
  {
    if pos == |clicks| then Suspended(b, s, moves, current)
    else
      var c := clicks[pos];
      match ProcessEvent(b.controller, c, b.cells[c].value)
      case Ok(Notified(_, _)) =>
        var marked := MarkMove(b, assets, c, current.symbol);
        var s' := s[c := current.symbol];
        if IsGameOver(s', first, second) then
          Finished(marked, s', moves + [c], Winner(s', first, second))
        else
          PlayFrom(Awaiting(marked, |moves + [c]|), s', assets, first, second,
                   Other(first, second, current), moves + [c], clicks, pos + 1)
      case _ => PlayFrom(b, s, assets, first, second, current, moves, clicks, pos + 1)
  }

  /**
   * `play`: reset the shared board, whose state is then all Blank
   * (`Boards.ResetState`), test the loop condition, and let the first player
   * register the handler for move 0.
   */
  function Play(g: Game, assets: Assets, clicks: seq<nat>): Outcome
    requires OnBoard(clicks)
  {
    var start := Reset(g.board, assets);
    if IsGameOver(EmptySquares(), g.first, g.second) then
      Finished(start, EmptySquares(), [], Winner(EmptySquares(), g.first, g.second))
    else
      PlayFrom(Awaiting(start, 0), EmptySquares(), assets, g.first, g.second, g.first, [], clicks, 0)
  }

  /**
   * One click, seen on the displayed state: with a handler registered, the
   * controller accepts the click exactly when the clicked square is Blank,
   * and never throws.
   */
  lemma ClickOnState(b: Board, s: seq<Marker>, c: nat)
    requires Displays(b, s) && c < TotalCells && b.controller.listener.Some?
    ensures var r := ProcessEvent(b.controller, c, b.cells[c].value);
      r.Ok? && (r.value.Notified? <==> s[c] == Blank)
  {
    DisplaysBlank(b, s, c);
    var r := ProcessEvent(b.controller, c, b.cells[c].value);
    if s[c] == Blank {
      assert r == Ok(Notified(b.controller.listener.value, c));
    }
  }

  /** The state the loop carries is what the board decodes to, and a waiting match has the pending move's handler registered. */
  ghost predicate OutcomeDisplays(o: Outcome) {
    && Displays(o.board, o.state)
    && (o.Suspended? ==> o.board.controller.listener == Some(|o.moves|))
  }

  /**
   * One step of the loop on a board showing `s`: a click on a blank square
   * either ends the match with that move or goes on from the marked board;
   * a click on an occupied square goes on from the same board.
   */
  lemma PlayFromUnfold(b: Board, s: seq<Marker>, assets: Assets, first: Player, second: Player,
                       current: Player, moves: seq<nat>, clicks: seq<nat>, pos: nat)
    requires Displays(b, s) && b.controller.listener.Some? && pos < |clicks|
    requires OnBoard(clicks)
    ensures var c := clicks[pos];
      var o := PlayFrom(b, s, assets, first, second, current, moves, clicks, pos);
      var marked := Awaiting(MarkMove(b, assets, c, current.symbol), |moves + [c]|);
      var s' := s[c := current.symbol];
      && (s[c] == Blank ==> Displays(MarkMove(b, assets, c, current.symbol), s'))
      && (s[c] == Blank && IsGameOver(s', first, second) ==>
            o == Finished(MarkMove(b, assets, c, current.symbol), s', moves + [c], Winner(s', first, second)))
      && (s[c] == Blank && !IsGameOver(s', first, second) ==>
            && Displays(marked, s') && marked.controller.listener.Some?
            && o == PlayFrom(marked, s', assets, first, second, Other(first, second, current), moves + [c], clicks, pos + 1))
      && (s[c] != Blank ==> o == PlayFrom(b, s, assets, first, second, current, moves, clicks, pos + 1))
  {
    var c := clicks[pos];
    ClickOnState(b, s, c);
    if s[c] == Blank {
      MarkMoveDisplays(b, s, assets, c, current.symbol);
    }
  }

  /** The state the loop carries is always what the board decodes to. */
  lemma {:induction false} PlayFromDecodes(b: Board, s: seq<Marker>, assets: Assets, first: Player, second: Player,
                                           current: Player, moves: seq<nat>, clicks: seq<nat>, pos: nat)
    requires Displays(b, s) && b.controller.listener == Some(|moves|) && pos <= |clicks|
    requires OnBoard(clicks)
    ensures OutcomeDisplays(PlayFrom(b, s, assets, first, second, current, moves, clicks, pos))
    decreases |clicks| - pos
  {
    if pos < |clicks| {
      var c := clicks[pos];
      PlayFromUnfold(b, s, assets, first, second, current, moves, clicks, pos);
      if s[c] == Blank {
        var s' := s[c := current.symbol];
        if !IsGameOver(s', first, second) {
          var marked := Awaiting(MarkMove(b, assets, c, current.symbol), |moves + [c]|);
          PlayFromDecodes(marked, s', assets, first, second,
                          Other(first, second, current), moves + [c], clicks, pos + 1);
        }
      } else {
        PlayFromDecodes(b, s, assets, first, second, current, moves, clicks, pos + 1);
      }
    }
  }

  /** The loop invariant on the state: it is the replay of `moves`, and `current` moves next. */
  ghost predicate ReplayInvariant(s: seq<Marker>, first: Player, second: Player, current: Player, moves: seq<nat>) {
    && ValidMoves(moves)
    && s == Replay(moves, first, second)
    && current == Mover(first, second, |moves|)
    && NeverOverBefore(moves, first, second)
  }

  /** An outcome whose state is the replay of its moves, reached exactly at the first game over. */
  ghost predicate OutcomeReplays(o: Outcome, first: Player, second: Player) {
    && ValidMoves(o.moves)
    && o.state == Replay(o.moves, first, second)
    && NeverOverBefore(o.moves, first, second)
    && (o.Finished? <==> IsGameOver(o.state, first, second))
    && (o.Finished? ==> o.winner == Winner(o.state, first, second))
    && (o.Suspended? ==> o.current == Mover(first, second, |o.moves|))
  }

  /** The moves of an outcome extend `moves` with clicks from `pos` on. */
  ghost predicate OutcomeDrawsOnClicks(o: Outcome, moves: seq<nat>, clicks: seq<nat>, pos: nat)
    requires pos <= |clicks|
  {
    && |moves| <= |o.moves| && o.moves[..|moves|] == moves
    && (forall k :: |moves| <= k < |o.moves| ==> o.moves[k] in clicks[pos..])
  }

  /**
   * No square occupied in `s` changes on the way to the outcome, and a match
   * still waiting has seen only clicks on occupied squares from `pos` on.
   */
  ghost predicate OutcomeWaitsOnOccupied(o: Outcome, s: seq<Marker>, clicks: seq<nat>, pos: nat)
    requires pos <= |clicks|
    requires OnBoard(clicks)
  {
    && |o.state| == TotalCells == |s|
    && (forall i :: 0 <= i < TotalCells && s[i] != Blank ==> o.state[i] == s[i])
    && (o.Suspended? ==> forall k :: pos <= k < |clicks| ==> o.state[clicks[k]] != Blank)
  }

  /** Appending an unplayed cell keeps a move list valid. */
  lemma ValidAppend(moves: seq<nat>, c: nat)
    requires ValidMoves(moves) && c < TotalCells && c !in moves
    ensures ValidMoves(moves + [c])
  {
  }

  /** Appending a move made from a state that is not over keeps "never over before". */
  lemma NeverOverAppend(moves: seq<nat>, c: nat, first: Player, second: Player)
    requires ValidMoves(moves) && c < TotalCells
    requires NeverOverBefore(moves, first, second)
    requires !IsGameOver(Replay(moves, first, second), first, second)
    ensures NeverOverBefore(moves + [c], first, second)
  {
    var moves' := moves + [c];
    forall k | 0 <= k < |moves'|
      ensures !IsGameOver(Replay(moves'[..k], first, second), first, second)
    {
      if k < |moves| {
        assert moves'[..k] == moves[..k];
      } else {
        assert moves'[..k] == moves;
      }
    }
  }

  /** One turn: marking a Blank square for the player to move keeps the replay invariant. */
  lemma ReplayStep(s: seq<Marker>, first: Player, second: Player, current: Player, moves: seq<nat>, c: nat)
    requires first.symbol != Blank && second.symbol != Blank
    requires ReplayInvariant(s, first, second, current, moves)
    requires !IsGameOver(s, first, second)
    requires c < TotalCells && s[c] == Blank
    ensures ReplayInvariant(s[c := current.symbol], first, second, Other(first, second, current), moves + [c])
  {
    ReplayAlternates(moves, first, second);
    assert c !in moves;
    ValidAppend(moves, c);
    ReplayAppend(moves, c, first, second);
    NeverOverAppend(moves, c, first, second);
    OtherIsNextMover(first, second, |moves|);
  }

  /** The loop keeps its invariant, and the outcome it reaches replays its moves. */
  lemma {:induction false} PlayFromReplays(b: Board, s: seq<Marker>, assets: Assets, first: Player, second: Player,
                                           current: Player, moves: seq<nat>, clicks: seq<nat>, pos: nat)
    requires Displays(b, s) && b.controller.listener.Some? && pos <= |clicks|
    requires OnBoard(clicks)
    requires first.symbol != Blank && second.symbol != Blank
    requires ReplayInvariant(s, first, second, current, moves) && !IsGameOver(s, first, second)
    ensures OutcomeReplays(PlayFrom(b, s, assets, first, second, current, moves, clicks, pos), first, second)
    decreases |clicks| - pos
  {
    if pos < |clicks| {
      var c := clicks[pos];
      ClickOnState(b, s, c);
      if s[c] == Blank {
        var marked := MarkMove(b, assets, c, current.symbol);
        var s' := s[c := current.symbol];
        ReplayStep(s, first, second, current, moves, c);
        if !IsGameOver(s', first, second) {
          MarkMoveDisplays(b, s, assets, c, current.symbol);
          PlayFromReplays(Awaiting(marked, |moves + [c]|), s', assets, first, second,
                          Other(first, second, current), moves + [c], clicks, pos + 1);
        }
      } else {
        PlayFromReplays(b, s, assets, first, second, current, moves, clicks, pos + 1);
      }
    }
  }

  /** A list `later` that starts with `moves + [c]` starts with `moves`, and has `c` next. */
  lemma PrefixStep(moves: seq<nat>, c: nat, later: seq<nat>)
    requires |moves| + 1 <= |later| && later[..|moves| + 1] == moves + [c]
    ensures later[..|moves|] == moves && later[|moves|] == c
  {
    assert later[..|moves|] == later[..|moves| + 1][..|moves|];
    assert later[|moves|] == later[..|moves| + 1][|moves|];
  }

  /** A move list that goes on with `clicks[pos]` and then clicks after `pos` draws from the clicks from `pos` on. */
  lemma MovesDrawnFromClicks(moves: seq<nat>, later: seq<nat>, clicks: seq<nat>, pos: nat)
    requires pos < |clicks|
    requires |moves| < |later| && later[|moves|] == clicks[pos]
    requires forall k :: |moves| + 1 <= k < |later| ==> later[k] in clicks[pos + 1..]
    ensures forall k :: |moves| <= k < |later| ==> later[k] in clicks[pos..]
  {
    assert clicks[pos..] == [clicks[pos]] + clicks[pos + 1..];
  }

  /** The step of `PlayFromDrawsOnClicks` for a click the loop plays. */
  lemma DrawsAfterDelivered(o: Outcome, moves: seq<nat>, clicks: seq<nat>, pos: nat)
    requires pos < |clicks|
    requires o.moves == moves + [clicks[pos]] || OutcomeDrawsOnClicks(o, moves + [clicks[pos]], clicks, pos + 1)
    ensures OutcomeDrawsOnClicks(o, moves, clicks, pos)
  {
    if o.moves == moves + [clicks[pos]] {
      assert o.moves[..|moves|] == moves;
      assert clicks[pos..][0] == clicks[pos];
    } else {
      PrefixStep(moves, clicks[pos], o.moves);
      MovesDrawnFromClicks(moves, o.moves, clicks, pos);
    }
  }

  /** Clicks from `pos + 1` on are among the clicks from `pos` on. */
  lemma LaterClicks(moves: seq<nat>, later: seq<nat>, clicks: seq<nat>, pos: nat)
    requires pos < |clicks|
    requires forall k :: |moves| <= k < |later| ==> later[k] in clicks[pos + 1..]
    ensures forall k :: |moves| <= k < |later| ==> later[k] in clicks[pos..]
  {
    assert clicks[pos..] == [clicks[pos]] + clicks[pos + 1..];
  }

  /** The moves the loop makes are cells clicked from `pos` on, in addition to the moves it started with. */
  lemma {:induction false} PlayFromDrawsOnClicks(b: Board, s: seq<Marker>, assets: Assets, first: Player, second: Player,
                                                 current: Player, moves: seq<nat>, clicks: seq<nat>, pos: nat)
    requires Displays(b, s) && b.controller.listener.Some? && pos <= |clicks|
    requires OnBoard(clicks)
    ensures OutcomeDrawsOnClicks(PlayFrom(b, s, assets, first, second, current, moves, clicks, pos), moves, clicks, pos)
    decreases |clicks| - pos
  {
    if pos < |clicks| {
      var c := clicks[pos];
      var o := PlayFrom(b, s, assets, first, second, current, moves, clicks, pos);
      PlayFromUnfold(b, s, assets, first, second, current, moves, clicks, pos);
      if s[c] == Blank {
        var s' := s[c := current.symbol];
        if !IsGameOver(s', first, second) {
          var marked := Awaiting(MarkMove(b, assets, c, current.symbol), |moves + [c]|);
          PlayFromDrawsOnClicks(marked, s', assets, first, second,
                                Other(first, second, current), moves + [c], clicks, pos + 1);
        }
        DrawsAfterDelivered(o, moves, clicks, pos);
      } else {
        PlayFromDrawsOnClicks(b, s, assets, first, second, current, moves, clicks, pos + 1);
        LaterClicks(moves, o.moves, clicks, pos);
      }
    }
  }

  /** The step of `PlayFromWaitsOnOccupied` for a click on an occupied square. */
  lemma WaitsAfterLostClick(o: Outcome, s: seq<Marker>, clicks: seq<nat>, pos: nat)
    requires OnBoard(clicks) && pos < |clicks|
    requires |s| == TotalCells && s[clicks[pos]] != Blank
    requires OutcomeWaitsOnOccupied(o, s, clicks, pos + 1)
    ensures OutcomeWaitsOnOccupied(o, s, clicks, pos)
  {
  }

  /** The step of `PlayFromWaitsOnOccupied` for a click that marks a Blank square with `m`. */
  lemma WaitsAfterMark(o: Outcome, s: seq<Marker>, m: Marker, clicks: seq<nat>, pos: nat)
    requires OnBoard(clicks) && pos < |clicks|
    requires |s| == TotalCells && s[clicks[pos]] == Blank && m != Blank
    requires OutcomeWaitsOnOccupied(o, s[clicks[pos] := m], clicks, pos + 1)
    ensures OutcomeWaitsOnOccupied(o, s, clicks, pos)
  {
    var s' := s[clicks[pos] := m];
    assert o.state[clicks[pos]] == s'[clicks[pos]];
    forall i | 0 <= i < TotalCells && s[i] != Blank ensures o.state[i] == s[i] {
      assert s'[i] == s[i];
    }
  }

  /**
   * The loop only ever marks Blank squares, so an occupied square keeps its
   * marker, and it stops for want of clicks only when every remaining click
   * was on an occupied square.
   */
  lemma {:induction false} PlayFromWaitsOnOccupied(b: Board, s: seq<Marker>, assets: Assets, first: Player, second: Player,
                                                   current: Player, moves: seq<nat>, clicks: seq<nat>, pos: nat)
    requires Displays(b, s) && b.controller.listener.Some? && pos <= |clicks|
    requires OnBoard(clicks)
    requires first.symbol != Blank && second.symbol != Blank && current.symbol != Blank
    ensures OutcomeWaitsOnOccupied(PlayFrom(b, s, assets, first, second, current, moves, clicks, pos), s, clicks, pos)
    decreases |clicks| - pos
  {
    var o := PlayFrom(b, s, assets, first, second, current, moves, clicks, pos);
    if pos < |clicks| {
      var c := clicks[pos];
      PlayFromUnfold(b, s, assets, first, second, current, moves, clicks, pos);
      if s[c] == Blank {
        var s' := s[c := current.symbol];
        if !IsGameOver(s', first, second) {
          var marked := Awaiting(MarkMove(b, assets, c, current.symbol), |moves + [c]|);
          PlayFromWaitsOnOccupied(marked, s', assets, first, second,
                                  Other(first, second, current), moves + [c], clicks, pos + 1);
        }
        WaitsAfterMark(o, s, current.symbol, clicks, pos);
      } else {
        PlayFromWaitsOnOccupied(b, s, assets, first, second, current, moves, clicks, pos + 1);
        WaitsAfterLostClick(o, s, clicks, pos);
      }
    }
  }

  /** The empty board is not a game over, and the loop entered on it starts from the invariant. */
  lemma StartInvariant(first: Player, second: Player)
    requires first.symbol != Blank && second.symbol != Blank
    ensures !IsGameOver(EmptySquares(), first, second)
    ensures ReplayInvariant(EmptySquares(), first, second, first, [])
  {
    var e := EmptySquares();
    assert e[0] == Blank;
    assert !IsFull(e);
    assert !IsWinner(e, first) && !IsWinner(e, second);
    assert Replay([], first, second) == e;
  }

  /**
   * What a call of `play` does with a finite stream of clicks, when both
   * players hold non-Blank symbols: the board ends well formed, in the state
   * reached by replaying the accepted moves from the empty board, the first
   * player moving first; no cell is played twice; the loop ran exactly while
   * the game was not over; the winner is the first player if it won, else
   * the second if it won, else `null`, and `null` exactly for a draw; a match
   * still waiting has the player of the next turn to move, with its handler
   * registered.
   */
  lemma PlayCorrect(g: Game, assets: Assets, clicks: seq<nat>)
    requires OnBoard(clicks)
    requires g.first.symbol != Blank && g.second.symbol != Blank
    ensures var o := Play(g, assets, clicks);
      && WellFormed(o.board)
      && Squares(o.board) == o.state
      && ValidMoves(o.moves)
      && o.state == Replay(o.moves, g.first, g.second)
      && NeverOverBefore(o.moves, g.first, g.second)
      && (o.Finished? <==> IsGameOver(o.state, g.first, g.second))
      && (o.Finished? ==> o.winner == Winner(o.state, g.first, g.second))
      && (o.Finished? ==> (o.winner.None? <==> IsDraw(o.state, g.first, g.second)))
      && (o.Suspended? ==> o.current == Mover(g.first, g.second, |o.moves|))
      && (o.Suspended? ==> o.board.controller.listener == Some(|o.moves|))
  {
    var start := Awaiting(Reset(g.board, assets), 0);
    StartInvariant(g.first, g.second);
    PlayFromDecodes(start, EmptySquares(), assets, g.first, g.second, g.first, [], clicks, 0);
    PlayFromReplays(start, EmptySquares(), assets, g.first, g.second, g.first, [], clicks, 0);
    var o := Play(g, assets, clicks);
    DisplaysIffState(o.board, o.state);
  }

  /**
   * The moves of `play` are clicked cells, at most nine of them; move `k`
   * shows the first player's symbol when `k` is even and the second's when
   * it is odd, and every cell not played is Blank.
   */
  lemma PlayAlternates(g: Game, assets: Assets, clicks: seq<nat>)
    requires OnBoard(clicks)
    requires g.first.symbol != Blank && g.second.symbol != Blank
    ensures var o := Play(g, assets, clicks);
      && |o.state| == TotalCells
      && |o.moves| <= TotalCells
      && (forall k :: 0 <= k < |o.moves| ==> o.moves[k] in clicks)
      && (forall k :: 0 <= k < |o.moves| ==>
            o.moves[k] < TotalCells && o.state[o.moves[k]] == Mover(g.first, g.second, k).symbol)
      && (forall i :: 0 <= i < TotalCells && i !in o.moves ==> o.state[i] == Blank)
  {
    var o := Play(g, assets, clicks);
    StartInvariant(g.first, g.second);
    PlayCorrect(g, assets, clicks);
    PlayFromDrawsOnClicks(Awaiting(Reset(g.board, assets), 0), EmptySquares(), assets,
                          g.first, g.second, g.first, [], clicks, 0);
    assert clicks[0..] == clicks;
    ReplayCountsDown(o.moves, g.first, g.second);
    ReplayAlternates(o.moves, g.first, g.second);
  }

  /** A state in which every clicked cell is occupied, and every cell is clicked, is full. */
  lemma ClickedEverywhereIsFull(s: seq<Marker>, clicks: seq<nat>)
    requires |s| == TotalCells
    requires forall k :: 0 <= k < |clicks| ==> clicks[k] < TotalCells && s[clicks[k]] != Blank
    requires forall i :: 0 <= i < TotalCells ==> i in clicks
    ensures IsFull(s)
  {
    forall i | 0 <= i < |s| ensures s[i] != Blank {
      assert i in clicks;
      var k :| 0 <= k < |clicks| && clicks[k] == i;
    }
  }

  /** A match whose clicks touch every cell always finishes. */
  lemma PlayFinishesWhenEveryCellClicked(g: Game, assets: Assets, clicks: seq<nat>)
    requires OnBoard(clicks)
    requires g.first.symbol != Blank && g.second.symbol != Blank
    requires forall i :: 0 <= i < TotalCells ==> i in clicks
    ensures Play(g, assets, clicks).Finished?
  {
    StartInvariant(g.first, g.second);
    PlayFromWaitsOnOccupied(Awaiting(Reset(g.board, assets), 0), EmptySquares(), assets,
                            g.first, g.second, g.first, [], clicks, 0);
    PlayCorrect(g, assets, clicks);
    var o := Play(g, assets, clicks);
    if o.Suspended? {
      ClickedEverywhereIsFull(o.state, clicks);
    }
  }

  /**
   * Only the player who made the last move can have won: the state before
   * that move was not over, and the move added only the mover's symbol.
   */
  lemma {:induction false} OnlyLastMoverWins(moves: seq<nat>, first: Player, second: Player)
    requires ValidMoves(moves) && NeverOverBefore(moves, first, second)
    requires first.symbol != Blank && second.symbol != Blank && first.symbol != second.symbol
    ensures |moves| == 0 ==> !IsWinner(Replay(moves, first, second), first) && !IsWinner(Replay(moves, first, second), second)
    ensures |moves| > 0 ==> forall p :: p in {first, second} && IsWinner(Replay(moves, first, second), p) ==>
      p == Mover(first, second, |moves| - 1)
  {
    var s := Replay(moves, first, second);
    if |moves| == 0 {
      assert s == EmptySquares();
    } else {
      var n := |moves| - 1;
      var prev := Replay(moves[..n], first, second);
      assert !IsGameOver(prev, first, second);
      var mover := Mover(first, second, n);
      assert s == prev[moves[n] := mover.symbol];
      forall p | p in {first, second} && IsWinner(s, p) ensures p == mover {
        if p.symbol != mover.symbol {
          WinsAfterOtherMark(prev, moves[n], mover.symbol, p.symbol);
        }
      }
    }
  }

  /**
   * The tie-break of `play` never has to choose: in a finished match at most
   * one player has won, and a reported winner is the player who moved last.
   */
  lemma PlayWinnerMovedLast(g: Game, assets: Assets, clicks: seq<nat>)
    requires OnBoard(clicks)
    requires g.first.symbol != Blank && g.second.symbol != Blank && g.first.symbol != g.second.symbol
    ensures var o := Play(g, assets, clicks);
      && !(IsWinner(o.state, g.first) && IsWinner(o.state, g.second))
      && (o.Finished? && o.winner.Some? ==>
            |o.moves| > 0 && o.winner.value == Mover(g.first, g.second, |o.moves| - 1))
  {
    PlayCorrect(g, assets, clicks);
    var o := Play(g, assets, clicks);
    OnlyLastMoverWins(o.moves, g.first, g.second);
  }

  /** Before any click, `play` has reset the board and the first player waits for move 0. */
  lemma PlayStartsEmpty(g: Game, assets: Assets)
    requires g.first.symbol != Blank && g.second.symbol != Blank
    ensures var o := Play(g, assets, []);
      && o.Suspended? && o.moves == [] && o.current == g.first
      && WellFormed(o.board) && Squares(o.board) == EmptySquares()
      && o.board.controller.listener == Some(0)
  {
    StartInvariant(g.first, g.second);
    ResetState(g.board, assets);
  }
}
