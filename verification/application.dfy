/**
 * The `Application` of application.mjs: one board and two human players,
 * cross and nought, and `run`, which plays one match after another on the
 * shared board and swaps who moves first after each match. The clicks of
 * each match arrive as their own finite stream; a run stops after the first
 * match still waiting for a move when its clicks run out.
 */
module Applications {
  import opened Symbols
  import opened Boards
  import opened Games

  /** The application: the shared board, and the cross and nought players. */
  datatype Application = Application(board: Board, crossPlayer: Player, noughtPlayer: Player)

  /** One match of a run: who moved first and second, and how it came out. */
  datatype MatchRecord = MatchRecord(first: Player, second: Player, outcome: Outcome)

  /**
   * The constructor: a new board (reset, with no listener registered) and a
   * human player for each of the Cross and Nought symbols.
   */
  function NewApplication(dom: seq<Cell>, assets: Assets): (app: Application)
    ensures app.crossPlayer.symbol == Cross && app.noughtPlayer.symbol == Nought
    ensures Displays(app.board, EmptySquares()) && app.board.controller.listener.None?
  {
    Application(NewBoard(dom, assets), Player(Cross), Player(Nought))
  }

  /** Every stream holds only clicks on the board's cells. */
  predicate StreamsOnBoard(streams: seq<seq<nat>>) {
    forall k :: 0 <= k < |streams| ==> OnBoard(streams[k])
  }

  /**
   * The `while (true)` loop of `run` from the point where `first` and
   * `second` are about to play on `board`, with one click stream per match
   * still to come. After a finished match the players swap and the next
   * match starts on the same board; a match that is still waiting ends the run.
   */
  function RunFrom(board: Board, assets: Assets, first: Player, second: Player,
                   streams: seq<seq<nat>>): (r: seq<MatchRecord>)
    requires StreamsOnBoard(streams)
    ensures |r| <= |streams|
    ensures |streams| > 0 ==> |r| > 0
    decreases |streams|
  {
    if |streams| == 0 then []
    else
      var o := Play(Game(first, second, board), assets, streams[0]);
      if o.Suspended? then [MatchRecord(first, second, o)]
      else [MatchRecord(first, second, o)] + RunFrom(o.board, assets, second, first, streams[1..])
  }

  /** `run`: the cross player moves first in the first match. */
  function Run(app: Application, assets: Assets, streams: seq<seq<nat>>): seq<MatchRecord>
    requires StreamsOnBoard(streams)
  {
    RunFrom(app.board, assets, app.crossPlayer, app.noughtPlayer, streams)
  }

  /**
   * Reference for the swap: the players of match `k` when `first` and
   * `second` play match 0. Swapping after every match makes the roles depend
   * only on the parity of `k`.
   */
  function Roles(first: Player, second: Player, k: nat): (Player, Player) {
    if k % 2 == 0 then (first, second) else (second, first)
  }

  /**
   * Two swaps give the roles back, and match `k + 1` of a run is match `k`
   * of the run that starts with the players swapped.
   */
  lemma RolesShift(first: Player, second: Player, k: nat)
    ensures Roles(first, second, k + 2) == Roles(first, second, k)
    ensures Roles(first, second, k + 1) == (Roles(first, second, k).1, Roles(first, second, k).0)
    ensures Roles(first, second, k + 1) == Roles(second, first, k)
  {
  }

  /** The board match `k` of a run is played on: the starting board, then the board the previous match left. */
  function BoardBefore(board: Board, r: seq<MatchRecord>, k: nat): Board
    requires k <= |r|
  {
    if k == 0 then board else r[k - 1].outcome.board
  }

  /** A run that went past its first match: the first record, then the run of the swapped players on the board it left. */
  lemma RunFromUnfold(board: Board, assets: Assets, first: Player, second: Player, streams: seq<seq<nat>>)
    requires StreamsOnBoard(streams) && |streams| > 0
    requires Play(Game(first, second, board), assets, streams[0]).Finished?
    ensures var o := Play(Game(first, second, board), assets, streams[0]);
      RunFrom(board, assets, first, second, streams)
      == [MatchRecord(first, second, o)] + RunFrom(o.board, assets, second, first, streams[1..])
  {
  }

  /** Match `k` of a run is played by the players `Roles` gives. */
  lemma {:induction false} RunFromRoles(board: Board, assets: Assets, first: Player, second: Player,
                                        streams: seq<seq<nat>>)
    requires StreamsOnBoard(streams)
    ensures var r := RunFrom(board, assets, first, second, streams);
      forall k :: 0 <= k < |r| ==> (r[k].first, r[k].second) == Roles(first, second, k)
    decreases |streams|
  {
    if |streams| > 0 {
      var r := RunFrom(board, assets, first, second, streams);
      var o := Play(Game(first, second, board), assets, streams[0]);
      assert r[0] == MatchRecord(first, second, o);
      if o.Finished? {
        var rest := RunFrom(o.board, assets, second, first, streams[1..]);
        RunFromUnfold(board, assets, first, second, streams);
        RunFromRoles(o.board, assets, second, first, streams[1..]);
        forall k | 0 <= k < |r| ensures (r[k].first, r[k].second) == Roles(first, second, k) {
          if k > 0 {
            assert r[k] == rest[k - 1];
            RolesShift(first, second, k - 1);
          }
        }
      }
    }
  }

  /** Every match of a run but the last finished, and the run stops early only after a match still waiting. */
  lemma {:induction false} RunFromStops(board: Board, assets: Assets, first: Player, second: Player,
                                        streams: seq<seq<nat>>)
    requires StreamsOnBoard(streams)
    ensures var r := RunFrom(board, assets, first, second, streams);
      && (forall k :: 0 <= k < |r| - 1 ==> r[k].outcome.Finished?)
      && (|r| < |streams| ==> r[|r| - 1].outcome.Suspended?)
    decreases |streams|
  {
    if |streams| > 0 {
      var o := Play(Game(first, second, board), assets, streams[0]);
      if o.Finished? {
        RunFromUnfold(board, assets, first, second, streams);
        RunFromStops(o.board, assets, second, first, streams[1..]);
      }
    }
  }

  /** Match `k` of a run is `play` with the `k`-th click stream, on the board the previous match left. */
  lemma {:induction false} RunFromThreadsBoard(board: Board, assets: Assets, first: Player, second: Player,
                                               streams: seq<seq<nat>>)
    requires StreamsOnBoard(streams)
    ensures var r := RunFrom(board, assets, first, second, streams);
      forall k :: 0 <= k < |r| ==>
        r[k].outcome == Play(Game(r[k].first, r[k].second, BoardBefore(board, r, k)), assets, streams[k])
    decreases |streams|
  {
    if |streams| > 0 {
      var o := Play(Game(first, second, board), assets, streams[0]);
      if o.Finished? {
        RunFromUnfold(board, assets, first, second, streams);
        RunFromThreadsBoard(o.board, assets, second, first, streams[1..]);
      }
    }
  }

  /**
   * Fairness of `run`: the cross player opens match `k` exactly when `k` is
   * even, and every match is played by cross and nought.
   */
  lemma RunSwapsFirstPlayer(dom: seq<Cell>, assets: Assets, streams: seq<seq<nat>>)
    requires StreamsOnBoard(streams)
    ensures var r := Run(NewApplication(dom, assets), assets, streams);
      forall k :: 0 <= k < |r| ==>
        && (r[k].first.symbol == Cross <==> k % 2 == 0)
        && {r[k].first.symbol, r[k].second.symbol} == {Cross, Nought}
  {
    var app := NewApplication(dom, assets);
    RunFromRoles(app.board, assets, app.crossPlayer, app.noughtPlayer, streams);
  }

  /**
   * A correct match of `play`: its board shows its state, which is the
   * replay of its moves with its first player opening, and it finished
   * exactly when its game was over.
   */
  ghost predicate MatchCorrect(rec: MatchRecord) {
    && WellFormed(rec.outcome.board)
    && Squares(rec.outcome.board) == rec.outcome.state
    && ValidMoves(rec.outcome.moves)
    && rec.outcome.state == Replay(rec.outcome.moves, rec.first, rec.second)
    && (rec.outcome.Finished? <==> IsGameOver(rec.outcome.state, rec.first, rec.second))
  }

  /** A match that is `play` with players holding non-Blank symbols is correct. */
  lemma PlayedMatchCorrect(rec: MatchRecord, board: Board, assets: Assets, clicks: seq<nat>)
    requires OnBoard(clicks)
    requires rec.first.symbol != Blank && rec.second.symbol != Blank
    requires rec.outcome == Play(Game(rec.first, rec.second, board), assets, clicks)
    ensures MatchCorrect(rec)
  {
    PlayCorrect(Game(rec.first, rec.second, board), assets, clicks);
  }

  /** Every match of a run on a new application is a correct match of `play`. */
  lemma RunMatchesCorrect(dom: seq<Cell>, assets: Assets, streams: seq<seq<nat>>)
    requires StreamsOnBoard(streams)
    ensures var r := Run(NewApplication(dom, assets), assets, streams);
      forall k :: 0 <= k < |r| ==> MatchCorrect(r[k])
  {
    var app := NewApplication(dom, assets);
    var r := Run(app, assets, streams);
    RunFromRoles(app.board, assets, app.crossPlayer, app.noughtPlayer, streams);
    RunFromThreadsBoard(app.board, assets, app.crossPlayer, app.noughtPlayer, streams);
    forall k | 0 <= k < |r| ensures MatchCorrect(r[k]) {
      PlayedMatchCorrect(r[k], BoardBefore(app.board, r, k), assets, streams[k]);
    }
  }
}
