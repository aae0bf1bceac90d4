/**
 The widget state of the `Colorgrill` component and its event handlers, each
 an instantaneous transition on an explicit record {matriz, currentColor,
 isMouseDown}. A handler whose JavaScript would throw (painting with a color
 that does not parse at a target with an in-bounds neighbor) leaves the
 record as it was, since `setMatriz` is then never reached.
 */
module Colorgrill {
  import opened Wrappers
  import opened HexColor
  import opened Grid

  const GridRows: nat := 35
  const GridCols: nat := 60
  const InitialColor: string := "#FFB1FF"

  datatype State = State(matriz: Grid, currentColor: string, isMouseDown: bool)

  /** The grid of the right size with every cell white. */
  predicate IsBlank(g: Grid) {
    HasShape(g, GridRows, GridCols) && AllWhite(g)
  }

  /** The state when the component mounts. */
  function Initial(): (w: State)
    ensures IsBlank(w.matriz) && ValidGrid(w.matriz)
    ensures w.currentColor == "#FFB1FF"
    ensures HexToRgb(w.currentColor) == Some(Rgb(255, 177, 255))
    ensures !w.isMouseDown
  {
    ParseInitialColorExample();
    CreateMatrizValid(GridRows, GridCols);
    State(CreateMatriz(GridRows, GridCols), InitialColor, false)
  }

  /** `handleCellClick(row, col)`: paints with the active color. The grid
      keeps its shape and no cell other than the target and its neighbors
      changes. Unless the handler throws, the target takes the active color;
      when the color parses its neighbors take its tint. When the color does
      not parse and the cell has a neighbor the handler throws and nothing
      changes. Color and pointer flag are kept. */
  function HandleCellClick(w: State, row: int, col: int): (w': State)
    ensures w'.currentColor == w.currentColor && w'.isMouseDown == w.isMouseDown
    ensures SameShape(w'.matriz, w.matriz)
    ensures !(HexToRgb(w.currentColor).None? && HasNeighbor(w.matriz, row, col)) && InBounds(w.matriz, row, col) ==>
      w'.matriz[row][col] == Hex(w.currentColor)
    ensures HexToRgb(w.currentColor).Some? ==> forall i, j :: InBounds(w.matriz, i, j) && Adjacent(i, j, row, col) ==>
      w'.matriz[i][j] == Tint(HexToRgb(w.currentColor).value)
    ensures forall i, j :: InBounds(w.matriz, i, j) && !(i == row && j == col) && !Adjacent(i, j, row, col) ==>
      w'.matriz[i][j] == w.matriz[i][j]
    ensures HexToRgb(w.currentColor).None? && HasNeighbor(w.matriz, row, col) ==> w' == w
  {
    match Paint(w.matriz, row, col, w.currentColor)
    case None => w
    case Some(g) => w.(matriz := g)
  }

  /** `handleMouseDown`: raises the pressed flag and nothing else. */
  function HandleMouseDown(w: State): (w': State)
    ensures w'.isMouseDown
    ensures w'.matriz == w.matriz && w'.currentColor == w.currentColor
  {
    w.(isMouseDown := true)
  }

  /** `handleMouseUp`: clears the pressed flag and nothing else. */
  function HandleMouseUp(w: State): (w': State)
    ensures !w'.isMouseDown
    ensures w'.matriz == w.matriz && w'.currentColor == w.currentColor
  {
    w.(isMouseDown := false)
  }

  /** `handleMouseEnter(row, col)`: paints like a click while the button is
      held, and changes nothing otherwise. */
  function HandleMouseEnter(w: State, row: int, col: int): (w': State)
    ensures !w.isMouseDown ==> w' == w
    ensures w.isMouseDown ==> w' == HandleCellClick(w, row, col)
  {
    if w.isMouseDown then HandleCellClick(w, row, col) else w
  }

  /** `handleChangeColor`: the picker reports a color whose `hex` becomes the
      active color; the grid and the flag are untouched. */
  function HandleChangeColor(w: State, hex: string): (w': State)
    ensures w'.currentColor == hex
    ensures w'.matriz == w.matriz && w'.isMouseDown == w.isMouseDown
  {
    w.(currentColor := hex)
  }

  /** `resetGrill`: a blank grid whatever was drawn; color and flag kept. */
  function ResetGrill(w: State): (w': State)
    ensures IsBlank(w'.matriz)
    ensures w'.currentColor == w.currentColor && w'.isMouseDown == w.isMouseDown
  {
    w.(matriz := CreateMatriz(GridRows, GridCols))
  }

  /** Resetting twice is resetting once. */
  lemma ResetIdempotent(w: State)
    ensures ResetGrill(ResetGrill(w)) == ResetGrill(w)
    ensures ResetGrill(w).matriz == Initial().matriz
  {
  }

  /** The inputs the component reacts to. */
  datatype Event =
    | MouseDown
    | MouseUp
    | CellClick(row: int, col: int)
    | MouseEnter(row: int, col: int)
    | ChangeColor(hex: string)
    | ResetClick

  /** The event wiring of the markup: the picker's `onChange`, the grid
      container's `onMouseDown`/`onMouseUp`, each cell's `onClick` and
      `onMouseEnter`, and the reset button's `onClick`. */
  function Step(w: State, e: Event): (w': State)
    ensures w'.currentColor == if e.ChangeColor? then e.hex else w.currentColor
    ensures w'.isMouseDown == if e.MouseDown? then true else if e.MouseUp? then false else w.isMouseDown
    ensures e.MouseDown? || e.MouseUp? || e.ChangeColor? ==> w'.matriz == w.matriz
    ensures HasShape(w.matriz, GridRows, GridCols) ==> HasShape(w'.matriz, GridRows, GridCols)
    ensures e.CellClick? ==> w' == HandleCellClick(w, e.row, e.col)
    ensures e.MouseEnter? ==> w' == HandleMouseEnter(w, e.row, e.col)
    ensures e.ResetClick? ==> IsBlank(w'.matriz)
  {
    match e
    case MouseDown => HandleMouseDown(w)
    case MouseUp => HandleMouseUp(w)
    case CellClick(row, col) => HandleCellClick(w, row, col)
    case MouseEnter(row, col) => HandleMouseEnter(w, row, col)
    case ChangeColor(hex) => HandleChangeColor(w, hex)
    case ResetClick => ResetGrill(w)
  }

  /** The state after handling `es` in order. */
  function Run(w: State, es: seq<Event>): State
    decreases |es|
  {
    if |es| == 0 then w else Run(Step(w, es[0]), es[1..])
  }

  /** No event changes the grid's dimensions. */
  lemma {:induction false} RunKeepsShape(w: State, es: seq<Event>)
    requires HasShape(w.matriz, GridRows, GridCols)
    ensures HasShape(Run(w, es).matriz, GridRows, GridCols)
    decreases |es|
  {
    if |es| > 0 {
      var w1 := Step(w, es[0]);
      assert SameShape(w1.matriz, w.matriz) || IsBlank(w1.matriz);
      RunKeepsShape(w1, es[1..]);
    }
  }

  /** Every event keeps each cell of the 35×60 grid valid, whatever colors are
      picked: a picked color that does not parse makes every paint on this
      grid throw before any cell is written. */
  lemma StepKeepsValidGrid(w: State, e: Event)
    requires HasShape(w.matriz, GridRows, GridCols) && ValidGrid(w.matriz)
    ensures ValidGrid(Step(w, e).matriz)
  {
    var w' := Step(w, e);
    if e.ResetClick? {
      CreateMatrizValid(GridRows, GridCols);
      assert w'.matriz == CreateMatriz(GridRows, GridCols);
    } else if e.CellClick? || (e.MouseEnter? && w.isMouseDown) {
      var p := Paint(w.matriz, e.row, e.col, w.currentColor);
      if p.Some? {
        PaintKeepsValidGrid(w.matriz, e.row, e.col, w.currentColor, GridRows, GridCols);
        assert w'.matriz == p.value;
      }
    }
  }

  /** From mount on, every cell always holds a valid color value. */
  lemma {:induction false} RunKeepsValidGrid(w: State, es: seq<Event>)
    requires HasShape(w.matriz, GridRows, GridCols) && ValidGrid(w.matriz)
    ensures ValidGrid(Run(w, es).matriz)
    decreases |es|
  {
    if |es| > 0 {
      StepKeepsValidGrid(w, es[0]);
      RunKeepsValidGrid(Step(w, es[0]), es[1..]);
    }
  }

  /** The active color keeps parsing as long as every color the picker
      reports parses, which holds for its `#rrggbb` form
      (`PickerHexRoundTrip`). */
  lemma {:induction false} RunKeepsColorParsing(w: State, es: seq<Event>)
    requires HexToRgb(w.currentColor).Some?
    requires forall k :: 0 <= k < |es| && es[k].ChangeColor? ==> HexToRgb(es[k].hex).Some?
    ensures HexToRgb(Run(w, es).currentColor).Some?
    decreases |es|
  {
    if |es| > 0 {
      var w1 := Step(w, es[0]);
      assert HexToRgb(w1.currentColor).Some?;
      var rest := es[1..];
      assert forall k :: 0 <= k < |rest| ==> rest[k] == es[k + 1];
      RunKeepsColorParsing(w1, rest);
    }
  }

  /** Once the button is released, hovering over cells (and further releases)
      paints nothing. */
  lemma {:induction false} ReleasedHoverPaintsNothing(w: State, es: seq<Event>)
    requires !w.isMouseDown
    requires forall k :: 0 <= k < |es| ==> es[k].MouseEnter? || es[k].MouseUp?
    ensures Run(w, es) == w
    decreases |es|
  {
    if |es| > 0 {
      assert es[0].MouseEnter? || es[0].MouseUp?;
      assert Step(w, es[0]) == w;
      ReleasedHoverPaintsNothing(w, es[1..]);
    }
  }

  /** Handling `e` and then `es` is handling `[e] + es`. */
  lemma RunCons(w: State, e: Event, es: seq<Event>)
    ensures Run(w, [e] + es) == Run(Step(w, e), es)
  {
    assert ([e] + es)[1..] == es;
  }

  /** Handling three events and then `es` is handling them one by one. */
  lemma RunThree(w: State, a: Event, b: Event, c: Event, es: seq<Event>)
    ensures Run(w, [a, b, c] + es) == Run(Step(Step(Step(w, a), b), c), es)
  {
    assert [a, b, c] + es == [a] + ([b] + ([c] + es));
    RunCons(w, a, [b] + ([c] + es));
    RunCons(Step(w, a), b, [c] + es);
    RunCons(Step(Step(w, a), b), c, es);
  }

  /** A press, a drag into (row, col) and a release paint (row, col) once;
      hovering afterwards changes nothing. The pressed cell itself is painted
      only by a click event, since `handleMouseDown` does not paint. */
  lemma DragGesture(w: State, row: int, col: int, later: seq<Event>)
    requires HexToRgb(w.currentColor).Some?
    requires forall k :: 0 <= k < |later| ==> later[k].MouseEnter?
    ensures Run(w, [MouseDown, MouseEnter(row, col), MouseUp] + later)
         == State(Paint(w.matriz, row, col, w.currentColor).value, w.currentColor, false)
  {
    var g := Paint(w.matriz, row, col, w.currentColor).value;
    var w1 := HandleMouseDown(w);
    assert w1 == State(w.matriz, w.currentColor, true);
    var w2 := HandleMouseEnter(w1, row, col);
    assert w2 == State(g, w.currentColor, true);
    var w3 := HandleMouseUp(w2);
    assert w3 == State(g, w.currentColor, false);
    RunThree(w, MouseDown, MouseEnter(row, col), MouseUp, later);
    ReleasedHoverPaintsNothing(w3, later);
  }

  /** A plain click (press, release, click) paints the clicked cell exactly
      once: hovering needs the button held, so only the click handler paints. */
  lemma PlainClickPaintsOnce(w: State, row: int, col: int)
    requires HexToRgb(w.currentColor).Some?
    ensures Run(w, [MouseDown, MouseUp, CellClick(row, col)])
         == State(Paint(w.matriz, row, col, w.currentColor).value, w.currentColor, false)
  {
    var w2 := HandleMouseUp(HandleMouseDown(w));
    assert w2 == State(w.matriz, w.currentColor, false);
    assert [MouseDown, MouseUp, CellClick(row, col)] + [] == [MouseDown, MouseUp, CellClick(row, col)];
    RunThree(w, MouseDown, MouseUp, CellClick(row, col), []);
  }
}
