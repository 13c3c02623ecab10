/** The interaction state of `FlagstoneSimulator` and every handler that
    changes it, each as a pure transition from one scene to the next. Values
    the source draws from `Math.random` (positions, colour index, rotation,
    id, the stones of a regenerated set) are parameters. Redrawing is a side
    effect on the canvas and is not part of the state. */
module Simulator {
  import opened Wrappers
  import opened Grid
  import opened Stones

  /** The simulator's fields: the placed stones in z-order (last is topmost),
      the read-only palette, the selection (an id, or none), the drag state and
      the grid settings. */
  datatype Scene = Scene(
    stones: seq<Stone>,
    palette: seq<Stone>,
    selected: Option<StoneId>,
    isDragging: bool,
    dragOffset: Point,
    showGrid: bool,
    snapToGrid: bool,
    gridSize: GridSize)

  /** The fields no handler of the canvas, the palette or the keyboard changes. */
  predicate SameSettings(a: Scene, b: Scene) {
    a.palette == b.palette && a.showGrid == b.showGrid && a.snapToGrid == b.snapToGrid
    && a.gridSize == b.gridSize
  }

  function Top(stones: seq<Stone>): Stone
    requires |stones| > 0
  {
    stones[|stones| - 1]
  }

  /** The constructor: nothing placed yet is selected or dragged, the grid is
      hidden, snapping is off and cells are 20 wide. The palette and the first
      stones come from the random generators and are given here. */
  function Initial(palette: seq<Stone>, stones: seq<Stone>): (sc: Scene)
    ensures sc.stones == stones && sc.palette == palette
    ensures sc.selected.None? && !sc.isDragging && sc.dragOffset == Point(0, 0)
    ensures !sc.showGrid && !sc.snapToGrid && sc.gridSize == 20
  {
    Scene(stones, palette, None, false, Point(0, 0), false, false, DefaultGridSize)
  }

  /* ---------------------------------------------------------------------- */
  /* Mouse on the canvas                                                     */
  /* ---------------------------------------------------------------------- */

  /** `handleMouseDown`: the topmost stone under the pointer is selected,
      starts dragging, remembers the pointer's offset from its position and is
      raised to the top. A press on empty canvas changes nothing, not even
      the selection. */
  function MouseDown(sc: Scene, p: Point): (r: Scene)
    ensures NoHit(sc.stones, p) ==> r == sc
    ensures !NoHit(sc.stones, p) ==>
              && |r.stones| == |sc.stones| && multiset(r.stones) == multiset(sc.stones)
              && IsPointInStone(p, Top(r.stones))
              && r.selected == Some(Top(r.stones).id)
              && r.isDragging
              && r.dragOffset == Point(p.x - Top(r.stones).x, p.y - Top(r.stones).y)
    ensures SameSettings(r, sc)
  {
    match TopmostHit(sc.stones, p)
    case None => sc
    case Some(i) =>
      var s := sc.stones[i];
      sc.(stones := Promote(sc.stones, i),
          selected := Some(s.id),
          isDragging := true,
          dragOffset := Point(p.x - s.x, p.y - s.y))
  }

  /** Where a drag to `p` puts the selected stone: the pointer less the drag
      offset, snapped to the nearest grid multiple when snapping is on. */
  function DragTarget(sc: Scene, p: Point): (t: Point)
    ensures !sc.snapToGrid ==> t.x + sc.dragOffset.x == p.x && t.y + sc.dragOffset.y == p.y
    ensures sc.snapToGrid ==> t.x % sc.gridSize == 0 && t.y % sc.gridSize == 0
    ensures sc.snapToGrid ==>
              var nx, ny := p.x - sc.dragOffset.x, p.y - sc.dragOffset.y;
              2 * (nx - t.x) < sc.gridSize && 2 * (t.x - nx) <= sc.gridSize
              && 2 * (ny - t.y) < sc.gridSize && 2 * (t.y - ny) <= sc.gridSize
  {
    var nx, ny := p.x - sc.dragOffset.x, p.y - sc.dragOffset.y;
    if sc.snapToGrid then Point(Snap(nx, sc.gridSize), Snap(ny, sc.gridSize)) else Point(nx, ny)
  }

  /** `handleMouseMove`: while dragging a selection, the selected stone moves
      to the drag target; nothing else changes. Without a drag or a
      selection the move is ignored. */
  function MouseMove(sc: Scene, p: Point): (r: Scene)
    ensures !sc.isDragging || sc.selected.None? ==> r == sc
    ensures r.(stones := sc.stones) == sc
    ensures |r.stones| == |sc.stones|
    ensures forall j :: 0 <= j < |sc.stones| && !(sc.isDragging && sc.selected == Some(sc.stones[j].id)) ==>
              r.stones[j] == sc.stones[j]
    ensures forall j :: 0 <= j < |sc.stones| && sc.isDragging && sc.selected == Some(sc.stones[j].id) ==>
              r.stones[j] == sc.stones[j].(x := DragTarget(sc, p).x, y := DragTarget(sc, p).y)
  {
    if !sc.isDragging || sc.selected.None? then sc
    else
      var t := DragTarget(sc, p);
      sc.(stones := EditById(sc.stones, sc.selected.value, MoveTo(t.x, t.y)))
  }

  /** `handleMouseUp`: the drag ends; the selection stays. */
  function MouseUp(sc: Scene): (r: Scene)
    ensures !r.isDragging
    ensures r.(isDragging := sc.isDragging) == sc
  {
    sc.(isDragging := false)
  }

  /* ---------------------------------------------------------------------- */
  /* Palette                                                                 */
  /* ---------------------------------------------------------------------- */

  /** `handlePaletteClick`: the first palette entry (in palette order) under
      the pointer is copied into a new stone on top of the canvas, with that
      entry's outline and colour; the drawn colour of `createStone` is
      overwritten. A click that hits no entry changes nothing. */
  function PaletteClick(sc: Scene, p: Point, at: Point, colourIndex: nat, rotation: int, id: StoneId): (r: Scene)
    requires colourIndex < |StoneColours|
    ensures NoHit(sc.palette, p) ==> r == sc
    ensures !NoHit(sc.palette, p) ==>
              && |r.stones| == |sc.stones| + 1 && r.stones[..|sc.stones|] == sc.stones
              && var s, k := Top(r.stones), FirstHit(sc.palette, p).value;
                 s.shape == sc.palette[k].shape && s.color == sc.palette[k].color
                 && s.id == id && Point(s.x, s.y) == at && s.rotation == rotation && !s.flipped
    ensures r.(stones := sc.stones) == sc
  {
    match FirstHit(sc.palette, p)
    case None => sc
    case Some(k) =>
      var entry := sc.palette[k];
      var s := CreateStone(at, entry.shape, colourIndex, rotation, id).(color := entry.color);
      assert (sc.stones + [s])[..|sc.stones|] == sc.stones;
      sc.(stones := sc.stones + [s])
  }

  /* ---------------------------------------------------------------------- */
  /* Commands on the selection                                               */
  /* ---------------------------------------------------------------------- */

  /** `rotateSelected(degrees)`: turn the selected stone; no-op without a
      selection. */
  function RotateSelected(sc: Scene, degrees: int): (r: Scene)
    ensures sc.selected.None? ==> r == sc
    ensures r.(stones := sc.stones) == sc
    ensures |r.stones| == |sc.stones|
    ensures forall j :: 0 <= j < |sc.stones| && sc.selected == Some(sc.stones[j].id) ==>
              r.stones[j].rotation == sc.stones[j].rotation + degrees
              && r.stones[j].(rotation := sc.stones[j].rotation) == sc.stones[j]
    ensures forall j :: 0 <= j < |sc.stones| && sc.selected != Some(sc.stones[j].id) ==>
              r.stones[j] == sc.stones[j]
  {
    if sc.selected.None? then sc
    else sc.(stones := EditById(sc.stones, sc.selected.value, Rotate(degrees)))
  }

  /** `flipSelected`: mirror the selected stone; no-op without a selection. */
  function FlipSelected(sc: Scene): (r: Scene)
    ensures sc.selected.None? ==> r == sc
    ensures r.(stones := sc.stones) == sc
    ensures |r.stones| == |sc.stones|
    ensures forall j :: 0 <= j < |sc.stones| && sc.selected == Some(sc.stones[j].id) ==>
              r.stones[j].flipped != sc.stones[j].flipped
              && r.stones[j].(flipped := sc.stones[j].flipped) == sc.stones[j]
    ensures forall j :: 0 <= j < |sc.stones| && sc.selected != Some(sc.stones[j].id) ==>
              r.stones[j] == sc.stones[j]
  {
    if sc.selected.None? then sc
    else sc.(stones := EditById(sc.stones, sc.selected.value, Flip))
  }

  /** `deleteSelected`: the first stone carrying the selected id is spliced
      out and the selection cleared. When nothing is selected, or the id is in
      no placed stone, nothing changes and the selection stays as it was. */
  function DeleteSelected(sc: Scene): (r: Scene)
    ensures sc.selected.None? || sc.selected.value !in Ids(sc.stones) ==> r == sc
    ensures sc.selected.Some? && sc.selected.value in Ids(sc.stones) ==>
              && r.selected.None?
              && |r.stones| == |sc.stones| - 1
              && r.stones == RemoveAt(sc.stones, FindById(sc.stones, sc.selected.value).value)
              && r.(stones := sc.stones, selected := sc.selected) == sc
  {
    match sc.selected
    case None => sc
    case Some(id) =>
      match FindById(sc.stones, id)
      case None => sc
      case Some(i) => sc.(stones := RemoveAt(sc.stones, i), selected := None)
  }

  /** The keys `handleKeyDown` reacts to. */
  predicate IsBoundKey(key: string) {
    key in {"r", "R", "e", "E", "f", "F", "Delete", "Backspace"}
  }

  /** `handleKeyDown`: with a selection, `r`/`R` rotates by +15 degrees,
      `e`/`E` by -15, `f`/`F` flips and `Delete`/`Backspace` deletes. Other keys,
      and every key without a selection, change nothing. */
  function HandleKey(sc: Scene, key: string): (r: Scene)
    ensures sc.selected.None? || !IsBoundKey(key) ==> r == sc
    ensures key == "r" || key == "R" ==> r == RotateSelected(sc, 15)
    ensures key == "e" || key == "E" ==> r == RotateSelected(sc, -15)
    ensures key == "f" || key == "F" ==> r == FlipSelected(sc)
    ensures key == "Delete" || key == "Backspace" ==> r == DeleteSelected(sc)
  {
    if sc.selected.None? then sc
    else if key == "r" || key == "R" then RotateSelected(sc, 15)
    else if key == "e" || key == "E" then RotateSelected(sc, -15)
    else if key == "f" || key == "F" then FlipSelected(sc)
    else if key == "Delete" || key == "Backspace" then DeleteSelected(sc)
    else sc
  }

  /* ---------------------------------------------------------------------- */
  /* Scene-wide commands                                                     */
  /* ---------------------------------------------------------------------- */

  /** `toggleGrid`: flips grid display and nothing else. */
  function ToggleGrid(sc: Scene): (r: Scene)
    ensures r.showGrid != sc.showGrid
    ensures r.(showGrid := sc.showGrid) == sc
  {
    sc.(showGrid := !sc.showGrid)
  }

  /** `toggleSnap`: flips snapping and nothing else. */
  function ToggleSnap(sc: Scene): (r: Scene)
    ensures r.snapToGrid != sc.snapToGrid
    ensures r.(snapToGrid := sc.snapToGrid) == sc
  {
    sc.(snapToGrid := !sc.snapToGrid)
  }

  /** `clearCanvas`: no stones, no selection; the drag flag is left alone. */
  function ClearCanvas(sc: Scene): (r: Scene)
    ensures r.stones == [] && r.selected.None?
    ensures r.(stones := sc.stones, selected := sc.selected) == sc
  {
    sc.(stones := [], selected := None)
  }

  /** `addRandomStone`: one freshly created stone goes on top; the rest of
      the scene, the selection included, is kept. */
  function AddRandomStone(sc: Scene, at: Point, shape: Shape, colourIndex: nat, rotation: int, id: StoneId): (r: Scene)
    requires colourIndex < |StoneColours|
    ensures |r.stones| == |sc.stones| + 1 && r.stones[..|sc.stones|] == sc.stones
    ensures var s := Top(r.stones);
              s.id == id && s.shape == shape && s.color in StoneColours && !s.flipped
              && Point(s.x, s.y) == at && s.rotation == rotation
    ensures r.(stones := sc.stones) == sc
  {
    var s := CreateStone(at, shape, colourIndex, rotation, id);
    assert (sc.stones + [s])[..|sc.stones|] == sc.stones;
    sc.(stones := sc.stones + [s])
  }

  /** `generateRandomStones`: the placed stones are replaced by a new set (the
      source draws three at random); the selection is NOT cleared. */
  function GenerateRandomStones(sc: Scene, newStones: seq<Stone>): (r: Scene)
    ensures r.stones == newStones
    ensures r.selected == sc.selected
    ensures r.(stones := sc.stones) == sc
  {
    sc.(stones := newStones)
  }
}
