/**
 * The `Board` of board.mjs: nine DOM cells in row-major order, each carrying
 * a `data-value` attribute (the name of the symbol it shows) and its inner
 * HTML (the symbol's SVG markup), together with the board's controller.
 */
module Boards {
  import opened Results
  import opened Symbols
  import opened BoardControllers

  /** The number of rows and of columns. */
  const BoardSize: nat := 3

  /** The number of cells. */
  const TotalCells: nat := BoardSize * BoardSize

  /** One DOM element `cell-i`: its `data-value` attribute and its inner HTML. */
  datatype Cell = Cell(value: string, html: string)

  /** The board: the elements `cell-0` .. `cell-8` in order, and its controller. */
  datatype Board = Board(cells: seq<Cell>, controller: Controller)

  /** The attribute and markup a cell carries once `s` is drawn in it. */
  function Showing(s: Symbol): Cell {
    Cell(s.name, s.svg)
  }

  /** The snapshot of a board on which every cell holds Blank. */
  function EmptySquares(): seq<Marker> {
    seq(TotalCells, _ => Blank)
  }

  lemma TotalCellsIsNine()
    ensures BoardSize == 3 && TotalCells == 9
  {
  }

  /** `allCells`: the cell indices visited in order, one per cell. */
  method AllCells() returns (ids: seq<nat>)
    ensures |ids| == TotalCells
    ensures forall i :: 0 <= i < |ids| ==> ids[i] == i
  {
    ids := [];
    var i := 0;
    while i < TotalCells
      invariant 0 <= i <= TotalCells
      invariant |ids| == i
      invariant forall k :: 0 <= k < i ==> ids[k] == k
    {
      ids := ids + [i];
      i := i + 1;
    }
  }

  /** `cellByIndex`: the element `cell-<index>`, or `null` when there is none. */
  function CellByIndex(b: Board, index: int): (r: Option<Cell>)
    ensures r.Some? <==> 0 <= index < |b.cells|
    ensures r.Some? ==> r.value == b.cells[index]
  {
    if 0 <= index < |b.cells| then Some(b.cells[index]) else None
  }

  /**
   * `state`: every cell's attribute decoded with `symbolForName`, in order.
   * The first cell whose attribute is not a registered name makes it throw.
   */
  function Decode(cells: seq<Cell>): (r: Result<seq<Marker>>)
    ensures r.Ok? <==> forall i :: 0 <= i < |cells| ==> SymbolForName(cells[i].value).Ok?
    ensures r.Ok? ==> |r.value| == |cells|
    ensures r.Ok? ==> forall i :: 0 <= i < |cells| ==> Name(r.value[i]) == cells[i].value
    ensures r.Err? ==> exists i :: FailsFirstAt(cells, i, r.message)
  {
    if |cells| == 0 then Ok([])
    else
      match SymbolForName(cells[0].value)
      case Err(e) =>
        assert FailsFirstAt(cells, 0, e);
        Err(e)
      case Ok(m) =>
        match Decode(cells[1..])
        case Err(e) =>
          assert exists i :: FailsFirstAt(cells, i, e) by {
            var i :| FailsFirstAt(cells[1..], i, e);
            assert forall j :: 1 <= j < i + 1 ==> cells[j] == cells[1..][j - 1];
            assert FailsFirstAt(cells, i + 1, e);
          }
          Err(e)
        case Ok(rest) => Ok([m] + rest)
  }

  /** Cell `i` is the first whose attribute does not decode, and it fails with `message`. */
  predicate FailsFirstAt(cells: seq<Cell>, i: int, message: string) {
    && 0 <= i < |cells|
    && SymbolForName(cells[i].value) == Err(message)
    && forall j :: 0 <= j < i ==> SymbolForName(cells[j].value).Ok?
  }

  /** The board's `state` property. */
  function State(b: Board): Result<seq<Marker>> {
    Decode(b.cells)
  }

  /** A board with nine cells whose attributes all name registered symbols. */
  predicate WellFormed(b: Board) {
    |b.cells| == TotalCells && State(b).Ok?
  }

  /** The decoded state of a well-formed board. */
  function Squares(b: Board): (s: seq<Marker>)
    requires WellFormed(b)
    ensures |s| == TotalCells
  {
    State(b).value
  }

  /** A board is well formed exactly when each of its nine attributes is one of the three names. */
  lemma WellFormedIffRegisteredNames(b: Board)
    ensures WellFormed(b) <==>
      |b.cells| == TotalCells &&
      forall i :: 0 <= i < |b.cells| ==>
        b.cells[i].value == "blank" || b.cells[i].value == "cross" || b.cells[i].value == "nought"
  {
  }

  /** On a well-formed board, square `i` is the marker named by cell `i`'s attribute. */
  lemma SquaresDecodeCells(b: Board, i: nat)
    requires WellFormed(b) && i < TotalCells
    ensures Squares(b)[i] == SymbolForName(b.cells[i].value).value
    ensures Squares(b)[i] == Blank <==> b.cells[i].value == "blank"
  {
    SymbolForNameRoundTrip(Squares(b)[i]);
  }

  /** The cells of `b` carry, in order, the names of the markers of `s`. */
  predicate Displays(b: Board, s: seq<Marker>) {
    && |b.cells| == TotalCells && |s| == TotalCells
    && forall i :: 0 <= i < TotalCells ==> b.cells[i].value == Name(s[i])
  }

  /** A board displays `s` exactly when it is well formed and its state is `s`. */
  lemma DisplaysIffState(b: Board, s: seq<Marker>)
    ensures Displays(b, s) <==> WellFormed(b) && Squares(b) == s
  {
    if Displays(b, s) {
      forall i | 0 <= i < TotalCells ensures SymbolForName(b.cells[i].value) == Ok(s[i]) {
        SymbolForNameRoundTrip(s[i]);
      }
      assert WellFormed(b);
      forall i | 0 <= i < TotalCells ensures Squares(b)[i] == s[i] {
        NameInjective(Squares(b)[i], s[i]);
      }
    }
  }

  /** A displayed marker is Blank exactly when its cell's attribute is "blank". */
  lemma DisplaysBlank(b: Board, s: seq<Marker>, i: nat)
    requires Displays(b, s) && i < TotalCells
    ensures s[i] == Blank <==> b.cells[i].value == "blank"
  {
    SymbolForNameRoundTrip(s[i]);
  }

  /** `reset`: every cell shows Blank; the controller is untouched. */
  function Reset(b: Board, assets: Assets): (b': Board)
    ensures |b'.cells| == TotalCells
    ensures forall i :: 0 <= i < TotalCells ==> b'.cells[i] == Showing(SymbolOf(assets, Blank))
    ensures b'.controller == b.controller
    ensures Displays(b', EmptySquares())
  {
    b.(cells := seq(TotalCells, _ => Showing(SymbolOf(assets, Blank))))
  }

  /** A reset board is well formed, and its state is all Blank. */
  lemma ResetState(b: Board, assets: Assets)
    ensures WellFormed(Reset(b, assets)) && Squares(Reset(b, assets)) == EmptySquares()
  {
    DisplaysIffState(Reset(b, assets), EmptySquares());
  }

  /** Resetting twice is resetting once. */
  lemma ResetIdempotent(b: Board, assets: Assets)
    ensures Reset(Reset(b, assets), assets) == Reset(b, assets)
  {
  }

  /** The constructor: the board is reset, then given a controller without a listener. */
  function NewBoard(dom: seq<Cell>, assets: Assets): (b: Board)
    ensures Displays(b, EmptySquares())
    ensures b.controller.listener.None?
  {
    Reset(Board(dom, NewController()), assets)
  }

  /** Rewriting one cell of a well-formed board with a registered name changes one square. */
  lemma RewriteOneSquare(b: Board, index: nat, c: Cell, m: Marker)
    requires WellFormed(b) && index < TotalCells && c.value == Name(m)
    ensures WellFormed(b.(cells := b.cells[index := c]))
    ensures Squares(b.(cells := b.cells[index := c])) == Squares(b)[index := m]
  {
    var b' := b.(cells := b.cells[index := c]);
    SymbolForNameRoundTrip(m);
    assert WellFormed(b');
    forall i | 0 <= i < TotalCells
      ensures Squares(b')[i] == Squares(b)[index := m][i]
    {
      NameInjective(Squares(b')[i], Squares(b)[index := m][i]);
    }
  }

  /**
   * `markMove`: cell `index` shows the symbol `m`, whatever it showed before;
   * no other cell and not the controller changes.
   */
  function MarkMove(b: Board, assets: Assets, index: nat, m: Marker): (b': Board)
    requires index < |b.cells|
    ensures |b'.cells| == |b.cells|
    ensures b'.cells[index] == Showing(SymbolOf(assets, m))
    ensures forall i :: 0 <= i < |b.cells| && i != index ==> b'.cells[i] == b.cells[i]
    ensures b'.controller == b.controller
  {
    b.(cells := b.cells[index := Showing(SymbolOf(assets, m))])
  }

  /**
   * Because the symbol `markMove` writes is a registered one, a well-formed
   * board stays well formed, and its state changes in square `index` only.
   */
  lemma MarkMoveSquares(b: Board, assets: Assets, index: nat, m: Marker)
    requires WellFormed(b) && index < TotalCells
    ensures WellFormed(MarkMove(b, assets, index, m))
    ensures Squares(MarkMove(b, assets, index, m)) == Squares(b)[index := m]
  {
    RewriteOneSquare(b, index, Showing(SymbolOf(assets, m)), m);
  }

  /** `markMove` on a board displaying `s` displays `s` with square `index` marked. */
  lemma MarkMoveDisplays(b: Board, s: seq<Marker>, assets: Assets, index: nat, m: Marker)
    requires Displays(b, s) && index < TotalCells
    ensures Displays(MarkMove(b, assets, index, m), s[index := m])
  {
  }
}
