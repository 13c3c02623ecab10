/** What the handlers promise together: the raise on a press, dragging back
    to the press point, repeated drags and flips, deletion, the palette's
    first-hit order, the scene invariant every user command keeps, and the
    stale selection that regenerating the stones leaves behind. */
module SceneProperties {
  import opened Wrappers
  import opened Grid
  import opened Stones
  import opened Simulator

  /* ---------------------------------------------------------------------- */
  /* Press, drag, release                                                    */
  /* ---------------------------------------------------------------------- */

  /** A press that hits picks the topmost stone under the pointer, raises it
      and keeps everyone else in order: stones below it stay where they were
      and stones above it move down by one. */
  lemma MouseDownRaisesTopmost(sc: Scene, p: Point, i: nat)
    requires IsTopmostHit(sc.stones, p, i)
    ensures var r := MouseDown(sc, p);
      && |r.stones| == |sc.stones|
      && Top(r.stones) == sc.stones[i]
      && (forall j :: 0 <= j < i ==> r.stones[j] == sc.stones[j])
      && (forall j :: i <= j < |sc.stones| - 1 ==> r.stones[j] == sc.stones[j + 1])
      && r.selected == Some(sc.stones[i].id)
      && r.isDragging
      && r.dragOffset == Point(p.x - sc.stones[i].x, p.y - sc.stones[i].y)
  {
    var k := TopmostHit(sc.stones, p);
    TopmostHitUnique(sc.stones, p, i, k.value);
  }

  /** Moving the pointer back to where it was pressed, without snapping,
      leaves the raised stone exactly where it was. */
  lemma DragToPressPointKeepsPosition(sc: Scene, p: Point)
    requires UniqueIds(sc.stones) && !NoHit(sc.stones, p) && !sc.snapToGrid
    ensures MouseMove(MouseDown(sc, p), p) == MouseDown(sc, p)
  {
    var i := TopmostHit(sc.stones, p).value;
    PromoteKeepsUnique(sc.stones, i);
    var d := MouseDown(sc, p);
    var m := MouseMove(d, p);
    var n := |d.stones|;
    forall j | 0 <= j < n ensures m.stones[j] == d.stones[j] {
      if d.selected == Some(d.stones[j].id) {
        assert d.stones[j].id == d.stones[n - 1].id;
        assert j == n - 1;
      }
    }
  }

  /** The drag target does not depend on where the stone is, so a second move
      to the same point changes nothing. */
  lemma MouseMoveIdempotent(sc: Scene, p: Point)
    ensures MouseMove(MouseMove(sc, p), p) == MouseMove(sc, p)
  {
    var m := MouseMove(sc, p);
    var mm := MouseMove(m, p);
    assert DragTarget(m, p) == DragTarget(sc, p);
    forall j | 0 <= j < |sc.stones| ensures mm.stones[j] == m.stones[j] {
    }
  }

  /** With snapping on, the dragged stone lands on the grid, and a target
      already on the grid is kept as it is. */
  lemma SnappedDragOnGrid(sc: Scene, p: Point)
    requires sc.snapToGrid
    ensures var t := DragTarget(sc, p);
      t.x % sc.gridSize == 0 && t.y % sc.gridSize == 0
    ensures var nx, ny := p.x - sc.dragOffset.x, p.y - sc.dragOffset.y;
      nx % sc.gridSize == 0 && ny % sc.gridSize == 0 ==> DragTarget(sc, p) == Point(nx, ny)
  {
    var nx, ny := p.x - sc.dragOffset.x, p.y - sc.dragOffset.y;
    if nx % sc.gridSize == 0 && ny % sc.gridSize == 0 {
      SnapFixesMultiples(nx, sc.gridSize);
      SnapFixesMultiples(ny, sc.gridSize);
    }
  }

  /** The drag state machine: a press on a stone enters Dragging, a release
      always returns to Idle, and the selection survives the release. */
  lemma PressDragRelease(sc: Scene, p: Point, q: Point)
    requires !NoHit(sc.stones, p)
    ensures MouseDown(sc, p).isDragging
    ensures var r := MouseUp(MouseMove(MouseDown(sc, p), q));
      !r.isDragging && r.selected == MouseDown(sc, p).selected
  {
  }

  /** The worked example: one stone at (100, 100), pressed at its centre and
      dragged to (150, 120) without snapping, ends at (150, 120). */
  lemma DragScenario(s: Stone, palette: seq<Stone>)
    requires s.x == 100 && s.y == 100
    ensures var sc := Initial(palette, [s]);
      var d := MouseDown(sc, Point(100, 100));
      && d.selected == Some(s.id) && d.dragOffset == Point(0, 0)
      && MouseMove(d, Point(150, 120)).stones == [s.(x := 150, y := 120)]
  {
    var sc := Initial(palette, [s]);
    assert IsTopmostHit(sc.stones, Point(100, 100), 0);
    MouseDownRaisesTopmost(sc, Point(100, 100), 0);
  }

  /* ---------------------------------------------------------------------- */
  /* Keys and commands on the selection                                      */
  /* ---------------------------------------------------------------------- */

  /** Flipping twice is the identity, selection or not. */
  lemma FlipSelectedTwice(sc: Scene)
    ensures FlipSelected(FlipSelected(sc)) == sc
  {
    if sc.selected.Some? {
      FlipTwice(sc.stones, sc.selected.value);
    }
  }

  /** Two presses of `r` turn the selected stone by 30 degrees in all. */
  lemma RotateKeyTwice(sc: Scene)
    ensures HandleKey(HandleKey(sc, "r"), "r") == RotateSelected(sc, 30)
  {
    if sc.selected.Some? {
      RotateAdds(sc.stones, sc.selected.value, 15, 15);
    }
  }

  /** `e` undoes `r`. */
  lemma RotateKeysCancel(sc: Scene)
    ensures HandleKey(HandleKey(sc, "r"), "e") == sc
  {
    if sc.selected.Some? {
      var id := sc.selected.value;
      RotateAdds(sc.stones, id, 15, -15);
      var z := EditById(sc.stones, id, Rotate(0));
      forall j | 0 <= j < |sc.stones| ensures z[j] == sc.stones[j] {
      }
    }
  }

  /** With unique ids, deleting the selection takes exactly the selected id
      out of the scene, keeps the others in order and ids unique. */
  lemma DeleteRemovesSelected(sc: Scene)
    requires UniqueIds(sc.stones) && sc.selected.Some? && sc.selected.value in Ids(sc.stones)
    ensures var r := DeleteSelected(sc);
      && r.selected.None?
      && |r.stones| == |sc.stones| - 1
      && Ids(r.stones) == Ids(sc.stones) - {sc.selected.value}
      && UniqueIds(r.stones)
  {
    var i := FindById(sc.stones, sc.selected.value).value;
    RemoveAtIds(sc.stones, i);
  }

  /* ---------------------------------------------------------------------- */
  /* Palette                                                                 */
  /* ---------------------------------------------------------------------- */

  /** The palette layout of `generatePaletteStones`: seven entries, 100 apart,
      along y = 60 starting at x = 60. */
  predicate IsPaletteLayout(palette: seq<Stone>) {
    |palette| == 7
    && forall i :: 0 <= i < 7 ==> palette[i].x == 60 + 100 * i && palette[i].y == 60
  }

  /** Neighbouring palette circles overlap: the point halfway between entries
      `i` and `i + 1` hits both. */
  lemma PaletteNeighboursOverlap(palette: seq<Stone>, i: nat)
    requires IsPaletteLayout(palette) && i < 6
    ensures IsPointInStone(Point(110 + 100 * i, 60), palette[i])
    ensures IsPointInStone(Point(110 + 100 * i, 60), palette[i + 1])
  {
  }

  /** A click in the overlap of entries `i` and `i + 1` copies entry `i`: no
      earlier entry reaches that far, so the scan stops at `i`. */
  lemma PaletteClickTakesFirstEntry(sc: Scene, q: Point, at: Point, colourIndex: nat, rotation: int, id: StoneId, i: nat)
    requires IsPaletteLayout(sc.palette) && colourIndex < |StoneColours| && i < 6
    requires IsPointInStone(q, sc.palette[i]) && IsPointInStone(q, sc.palette[i + 1])
    ensures var r := PaletteClick(sc, q, at, colourIndex, rotation, id);
      Top(r.stones).shape == sc.palette[i].shape && Top(r.stones).color == sc.palette[i].color
  {
    var next := sc.palette[i + 1];
    CloseInX(q, next);
    forall j | 0 <= j < i ensures !IsPointInStone(q, sc.palette[j]) {
      CloseInX(q, sc.palette[j]);
    }
    assert IsFirstHit(sc.palette, q, i);
  }

  /** A hit lies within 80 of the stone along x. */
  lemma CloseInX(q: Point, s: Stone)
    ensures IsPointInStone(q, s) ==> -80 < q.x - s.x < 80
  {
    if IsPointInStone(q, s) {
      var dx, dy := q.x - s.x, q.y - s.y;
      assert dy * dy >= 0;
      SquareBelow(dx);
    }
  }

  lemma SquareBelow(d: int)
    ensures d * d < 6400 ==> -80 < d < 80
  {
    if d >= 80 {
      assert d * d >= 80 * d >= 6400;
    } else if d <= -80 {
      assert d * d >= -80 * d >= 6400;
    }
  }

  /* ---------------------------------------------------------------------- */
  /* The scene invariant                                                     */
  /* ---------------------------------------------------------------------- */

  /** The selection names a placed stone. */
  predicate SelectionPlaced(sc: Scene) {
    sc.selected.Some? ==> sc.selected.value in Ids(sc.stones)
  }

  /** Ids are unique and the selection, if any, is on the canvas. */
  predicate WellFormed(sc: Scene) {
    UniqueIds(sc.stones) && SelectionPlaced(sc)
  }

  /** Every input the user can give: the canvas mouse events, a palette click,
      a key, and the button commands (regenerating the stones aside). The
      values the source draws at random ride along with the command. */
  datatype Command =
    | Press(p: Point)
    | Move(p: Point)
    | Release
    | Pick(p: Point, at: Point, colourIndex: nat, rotation: int, id: StoneId)
    | Key(key: string)
    | Turn(degrees: int)
    | Mirror
    | Delete
    | Clear
    | Add(at: Point, shape: Shape, colourIndex: nat, rotation: int, id: StoneId)
    | SwitchGrid
    | SwitchSnap

  /** The random draws a command carries are ones the source can produce, and
      a new stone's id is not already placed. */
  predicate Admissible(sc: Scene, cmd: Command) {
    match cmd
    case Pick(_, _, c, _, id) => c < |StoneColours| && id !in Ids(sc.stones)
    case Add(_, _, c, _, id) => c < |StoneColours| && id !in Ids(sc.stones)
    case _ => true
  }

  /** Dispatch a command to its handler. The palette and the grid size are
      never touched by any of them. */
  function Step(sc: Scene, cmd: Command): (r: Scene)
    requires Admissible(sc, cmd)
    ensures r.palette == sc.palette && r.gridSize == sc.gridSize
  {
    match cmd
    case Press(p) => MouseDown(sc, p)
    case Move(p) => MouseMove(sc, p)
    case Release => MouseUp(sc)
    case Pick(p, at, c, rot, id) => PaletteClick(sc, p, at, c, rot, id)
    case Key(k) => HandleKey(sc, k)
    case Turn(d) => RotateSelected(sc, d)
    case Mirror => FlipSelected(sc)
    case Delete => DeleteSelected(sc)
    case Clear => ClearCanvas(sc)
    case Add(at, shape, c, rot, id) => AddRandomStone(sc, at, shape, c, rot, id)
    case SwitchGrid => ToggleGrid(sc)
    case SwitchSnap => ToggleSnap(sc)
  }

  lemma EditSelectionKeepsWellFormed(sc: Scene, r: Scene, e: Edit)
    requires WellFormed(sc) && sc.selected.Some?
    requires r == sc.(stones := EditById(sc.stones, sc.selected.value, e))
    ensures WellFormed(r)
  {
    EditKeepsIds(sc.stones, sc.selected.value, e);
  }

  lemma KeyKeepsWellFormed(sc: Scene, k: string)
    requires WellFormed(sc)
    ensures WellFormed(HandleKey(sc, k))
  {
    if sc.selected.Some? {
      var id := sc.selected.value;
      if k == "r" || k == "R" {
        EditKeepsIds(sc.stones, id, Rotate(15));
      } else if k == "e" || k == "E" {
        EditKeepsIds(sc.stones, id, Rotate(-15));
      } else if k == "f" || k == "F" {
        EditKeepsIds(sc.stones, id, Flip);
      } else if k == "Delete" || k == "Backspace" {
        DeleteRemovesSelected(sc);
      }
    }
  }

  /** Every command keeps ids unique and the selection on the canvas. */
  lemma StepKeepsWellFormed(sc: Scene, cmd: Command)
    requires WellFormed(sc) && Admissible(sc, cmd)
    ensures WellFormed(Step(sc, cmd))
  {
    match cmd
    case Press(p) =>
      if !NoHit(sc.stones, p) {
        PromoteKeepsUnique(sc.stones, TopmostHit(sc.stones, p).value);
      }
    case Move(p) =>
      if sc.isDragging && sc.selected.Some? {
        var t := DragTarget(sc, p);
        EditSelectionKeepsWellFormed(sc, Step(sc, cmd), MoveTo(t.x, t.y));
      }
    case Release =>
    case Pick(p, at, c, rot, id) =>
      if !NoHit(sc.palette, p) {
        var r := Step(sc, cmd);
        assert r.stones == sc.stones + [Top(r.stones)];
        AppendFresh(sc.stones, Top(r.stones));
      }
    case Key(k) => KeyKeepsWellFormed(sc, k);
    case Turn(d) =>
      if sc.selected.Some? {
        EditSelectionKeepsWellFormed(sc, Step(sc, cmd), Rotate(d));
      }
    case Mirror =>
      if sc.selected.Some? {
        EditSelectionKeepsWellFormed(sc, Step(sc, cmd), Flip);
      }
    case Delete =>
      if sc.selected.Some? {
        DeleteRemovesSelected(sc);
      }
    case Clear =>
    case Add(at, shape, c, rot, id) =>
      var r := Step(sc, cmd);
      assert r.stones == sc.stones + [Top(r.stones)];
      AppendFresh(sc.stones, Top(r.stones));
    case SwitchGrid =>
    case SwitchSnap =>
  }

  /** Every command of the run is admissible in the scene it meets. */
  predicate AdmissibleRun(sc: Scene, cmds: seq<Command>)
    decreases |cmds|
  {
    |cmds| == 0 || (Admissible(sc, cmds[0]) && AdmissibleRun(Step(sc, cmds[0]), cmds[1..]))
  }

  /** The scene after a run of commands. */
  function Run(sc: Scene, cmds: seq<Command>): (r: Scene)
    requires AdmissibleRun(sc, cmds)
    ensures r.palette == sc.palette && r.gridSize == sc.gridSize
    decreases |cmds|
  {
    if |cmds| == 0 then sc else Run(Step(sc, cmds[0]), cmds[1..])
  }

  /** Starting from the constructor's state with uniquely named stones, the
      invariant holds after any admissible run. */
  lemma {:induction false} RunKeepsWellFormed(sc: Scene, cmds: seq<Command>)
    requires WellFormed(sc) && AdmissibleRun(sc, cmds)
    ensures WellFormed(Run(sc, cmds))
    decreases |cmds|
  {
    if |cmds| > 0 {
      StepKeepsWellFormed(sc, cmds[0]);
      RunKeepsWellFormed(Step(sc, cmds[0]), cmds[1..]);
    }
  }

  lemma InitialWellFormed(palette: seq<Stone>, stones: seq<Stone>)
    requires UniqueIds(stones)
    ensures WellFormed(Initial(palette, stones))
  {
  }

  /* ---------------------------------------------------------------------- */
  /* The stale selection                                                     */
  /* ---------------------------------------------------------------------- */

  /** Regenerating the stones is the one command outside the invariant: the
      selection survives it, names no placed stone, and then neither delete
      nor flip nor rotate does anything. */
  lemma RegenerateLeavesStaleSelection(sc: Scene, newStones: seq<Stone>, d: int)
    requires sc.selected.Some? && sc.selected.value !in Ids(newStones)
    ensures var r := GenerateRandomStones(sc, newStones);
      && r.selected == sc.selected
      && !SelectionPlaced(r)
      && DeleteSelected(r) == r
      && FlipSelected(r) == r
      && RotateSelected(r, d) == r
  {
    var r := GenerateRandomStones(sc, newStones);
    var id := sc.selected.value;
    assert forall j :: 0 <= j < |newStones| ==> newStones[j].id != id;
    assert FlipSelected(r).stones == newStones;
    assert RotateSelected(r, d).stones == newStones;
  }
}
