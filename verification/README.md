# Flagstone simulator: interaction state and colour arithmetic

A Dafny model of `FlagstoneSimulator` in `flagstone.js`. The simulator is a
canvas tool for laying out irregular "stones". It has two modelled parts.

**The scene.** Placed stones form a sequence in z-order, and the last one
is on top. The palette is a read-only strip of template stones. The scene
also holds a selection, a drag state (an active flag and a pointer-to-stone
offset) and the grid settings. The handlers covered are:
- mouse press, move and release on the canvas;
- palette click;
- the key bindings;
- the button commands: rotate, flip, delete, clear, add one stone,
  regenerate the stones, and the two grid toggles.

Each handler is a pure function from one `Scene` to the next.

**The colour helpers.** `lightenColor` and `darkenColor` parse a `#RRGGBB`
string, shift each channel by a fixed amount and clamp it to [0, 255]. They
then print the colour back as `#` and six lower-case hex digits.

Files:
- `wrappers.dfy`: `Option`.
- `colour.dfy`: module `Colour`. It holds `parseInt(…, 16)` as ECMAScript
  defines it, ToInt32, the shift/mask channel split, `toString(16)` with the
  `0x1000000` padding trick, and the two colour operations.
- `grid.dfy`: module `Grid`. It holds snap-to-grid rounding (`Math.round`
  rounds halves up).
- `stones.dfy`: module `Stones`. It holds the stone record, the colour table,
  the circular hit test, the topmost-first and first-in-order searches, the
  lookup by id, splice and raise, and the placement edits.
- `simulator.dfy`: module `Simulator`. It holds the `Scene` record and
  every handler.
- `properties.dfy`: module `SceneProperties`. It holds lemmas that relate
  several handlers, a `Command` type with a `Step` dispatcher, and the scene
  invariant.

Modelling choices:
- Coordinates are integers.
- The hit test compares squared distances (`dx*dx + dy*dy < 6400`).
  `Stones.HitIsDistanceBelowRadius` shows this equals the source's
  `sqrt(…) < 80`.
- Rotation is kept in whole degrees.
- The selection is held as a stone id. The source holds a reference to the
  stone object. With unique ids the two agree. Moves, flips and rotations
  therefore edit the stone carrying the selected id. Delete removes the first
  stone with that id, as `findIndex` does.
- Values the source draws from `Math.random` are parameters. These are
  positions, the colour index, the rotation, ids, shapes and the regenerated
  stone set.
- Redrawing has no effect on the state, so it is not modelled.

Two facts about the selection in flagstone.js shape the model:
- The selection need not name a placed stone. `generateRandomStones`
  (flagstone.js:94-103) replaces the stones but keeps `selectedStone`. After
  that, `deleteSelected` (flagstone.js:334-339) finds index -1 and leaves the
  selection set. `SceneProperties.RegenerateLeavesStaleSelection` proves this.
  So the invariant `SceneProperties.WellFormed` (ids unique, selection placed)
  is proved for every command except regeneration.
- `deleteSelected` clears the selection only when it finds the stone.

## Model

| member | source | states |
|---|---|---|
| Colour.RemoveFirstHash | flagstone.js:368 | `replace("#", "")` cuts out the first `#` and keeps every other character, and leaves a `#`-free string unchanged |
| Colour.ParseInt16 | flagstone.js:368 | `parseInt(…, 16)` gives NaN exactly when no hex digit follows the white space, sign and `0x` prefix |
| Colour.ParseInt16Value | flagstone.js:368 | white space, an optional sign, an optional `0x`/`0X`, a run of hex digits and then any non-digit parse to the run's value, negated after `-` (a bare `0` followed by `x` is itself the prefix) |
| Colour.ParseAllHex | flagstone.js:368 | a non-empty run of hex digits parses to exactly its value |
| Colour.ToInt32 | flagstone.js:370-372 | the operand of the shifts is wrapped into the signed 32-bit range and is congruent to the input mod 2^32 |
| Colour.Decode | flagstone.js:368-372 | for any string, red comes from a 16-bit arithmetic shift (in [-32768, 32767]), and green and blue are bytes |
| Colour.HexChannels | flagstone.js:67-71 | a `#RRGGBB` colour's channels read pair by pair are bytes |
| Colour.DecodeHexColour | flagstone.js:368-372 | on a well-formed `#RRGGBB` string the shift-and-mask split gives the three two-digit channel values |
| Colour.DigitsRoundTrip | flagstone.js:373-375 | reading back `k` zero-padded hex digits of a value below 16^k gives the value |
| Colour.ToHex | flagstone.js:373-375 | `n.toString(16)` is a non-empty run of lower-case hex digits |
| Colour.ToHexRoundTrip | flagstone.js:373-375 | `n.toString(16)` reads back as `n`, and from two digits on its first digit is not `0` |
| Colour.ToHexOfLeadingOne | flagstone.js:373-375 | `(16^k + v).toString(16)` is `1` followed by exactly `k` zero-padded digits of `v`, so `.slice(1)` leaves those `k` digits |
| Colour.HexValueAppend | flagstone.js:368 | the value of concatenated digit runs is the left value shifted by the right run's width plus the right value |
| Colour.Encode | flagstone.js:373-375 | for byte channels the output is `#` plus six lower-case hex digits, and decoding it gives the channels back |
| Colour.LightenClamp | flagstone.js:373-375 | the nested conditional of `lightenColor` is the clamp to [0, 255] |
| Colour.DarkenClamp | flagstone.js:384-386 | the nested conditional of `darkenColor` is the clamp to [0, 255] |
| Colour.Lighten | flagstone.js:367-376 | for any input, the output is a lower-case `#RRGGBB` whose channels are the input's channels plus `amt`, each clamped |
| Colour.Darken | flagstone.js:378-387 | for any input, the output is a lower-case `#RRGGBB` whose channels are the input's channels minus `amt`, each clamped |
| Colour.DarkenIsNegativeLighten | flagstone.js:367-387 | darkening by `amt` equals lightening by `-amt` |
| Colour.LightenHexColour | flagstone.js:367-376 | on a palette-style `#RRGGBB` each output channel is that channel's two-digit value plus `amt`, clamped |
| Colour.LightenPrintsHexChannels | flagstone.js:367-376 | the printed colour is a well-formed `#RRGGBB` whose digit pairs are the input channels plus `amt`, clamped, so it is a valid input again |
| Colour.LightenThenDarken | flagstone.js:367-387 | for any `#RRGGBB` colour, upper-case table colours included, darkening the lightened colour by the same amount restores its channels when no channel was clamped |
| Grid.Snap | flagstone.js:261-264 | the snapped coordinate is a multiple of the grid size within half a cell of the input, with ties going up |
| Grid.SnapUnique | flagstone.js:262-263 | no other multiple of the grid size lies in that half-open half-cell window, so the rounding is fully determined |
| Grid.SnapFixesMultiples | flagstone.js:262-263 | a coordinate already on the grid is unchanged |
| Grid.SnapIdempotent | flagstone.js:262-263 | snapping twice equals snapping once |
| Grid.SnapIsRoundHalfUp | flagstone.js:262-263 | the integer formula equals `floor(n / g + 1/2) * g`, which is `Math.round(n / g) * g` |
| Grid.SnapMonotone | flagstone.js:262-263 | for `n <= m`, the snap of `n` is at most the snap of `m` |
| Stones.StoneColoursAreHex | flagstone.js:67-71 | every entry of the colour table is a well-formed `#RRGGBB` string |
| Stones.CreateStone | flagstone.js:65-82 | a new stone is unflipped, sits at the given position, and has the given shape, rotation and id and the chosen table colour, a `#RRGGBB` string |
| Stones.IsPointInStone | flagstone.js:223-229 | a point hits a stone when it lies strictly inside the radius-80 circle around the stone's position |
| Stones.HitIsDistanceBelowRadius | flagstone.js:223-229 | the squared-distance test holds exactly when the Euclidean distance is below 80 |
| Stones.TopmostHit | flagstone.js:234-249 | the search returns the highest index whose stone is hit, and returns none exactly when no stone is hit |
| Stones.TopmostHitUnique | flagstone.js:235-236 | only one index satisfies the topmost-hit condition |
| Stones.FirstHit | flagstone.js:279-292 | the palette search returns the lowest hit index, and returns none exactly when no entry is hit |
| Stones.FindById | flagstone.js:334-335 | `findIndex` returns the first index carrying the id, and returns -1 (none) exactly when the id is absent |
| Stones.RemoveAt | flagstone.js:336 | `splice(i, 1)` removes one element: stones before it keep their index, later ones shift down by one, and the multiset loses exactly that stone |
| Stones.Promote | flagstone.js:244-246 | after splice-and-push the length and multiset are unchanged, the raised stone is last, and the others keep their relative order |
| Stones.SameIdsOfPermutation | flagstone.js:244-246 | a reordering of the stones keeps the same set of ids |
| Stones.PromoteKeepsUnique | flagstone.js:244-246 | raising a stone keeps ids unique and keeps the id set |
| Stones.RemoveAtIds | flagstone.js:334-336 | with unique ids, splicing out one stone removes exactly its id and keeps ids unique |
| Stones.AppendFresh | flagstone.js:288 | pushing a stone with a new id keeps ids unique and adds exactly that id |
| Stones.ApplyEdit | flagstone.js:266-330 | a move, flip or rotation changes only its own field and never the id, shape or colour |
| Stones.EditById | flagstone.js:318-330 | editing the selected stone leaves every other stone unchanged and never changes an id, shape or colour |
| Stones.EditKeepsIds | flagstone.js:318-330 | an edit keeps the id set and the uniqueness of ids |
| Stones.FlipTwice | flagstone.js:325-330 | flipping the same stone twice restores the sequence |
| Stones.MoveToIdempotent | flagstone.js:266-267 | moving a stone to a position twice equals moving it once |
| Stones.RotateAdds | flagstone.js:318-323 | rotating by `a` and then by `b` equals rotating by `a + b` |
| Simulator.Initial | flagstone.js:8-15 | the constructor starts with no selection, no drag, offset (0, 0), the grid hidden, snapping off and a cell size of 20 |
| Simulator.MouseDown | flagstone.js:231-252 | a miss changes nothing, not even the selection; a hit keeps the stones as a permutation with a hit stone on top, selects it, starts dragging and records the offset |
| Simulator.DragTarget | flagstone.js:258-264 | without snapping the target plus the offset is the pointer; with snapping both coordinates are grid multiples within half a cell of the raw target |
| Simulator.MouseMove | flagstone.js:254-270 | with no drag or no selection nothing changes; otherwise only the selected stone moves, to the drag target |
| Simulator.MouseUp | flagstone.js:272-274 | release clears the drag flag and changes nothing else |
| Simulator.PaletteClick | flagstone.js:276-293 | a miss changes nothing; a hit appends exactly one unflipped stone with the first hit entry's shape and colour, leaving the palette and everything else as they were |
| Simulator.RotateSelected | flagstone.js:318-323 | only the selected stone's rotation changes, by `degrees`; it is a no-op without a selection |
| Simulator.FlipSelected | flagstone.js:325-330 | only the selected stone's flip flag changes; it is a no-op without a selection |
| Simulator.DeleteSelected | flagstone.js:332-341 | if the selected id is placed, that one stone is spliced out and the selection cleared; otherwise nothing changes |
| Simulator.HandleKey | flagstone.js:295-316 | without a selection, or for an unbound key, nothing changes; r/R rotates +15, e/E rotates -15, f/F flips, and Delete/Backspace deletes |
| Simulator.ToggleGrid | flagstone.js:343-346 | the grid display flag is inverted and nothing else changes |
| Simulator.ToggleSnap | flagstone.js:348-350 | the snap flag is inverted and nothing else changes |
| Simulator.ClearCanvas | flagstone.js:352-356 | no stones and no selection remain; the drag flag and settings are kept |
| Simulator.AddRandomStone | flagstone.js:358-365 | exactly one new unflipped stone with a table colour is pushed on top, and the rest, the selection included, is kept |
| Simulator.GenerateRandomStones | flagstone.js:94-104 | the stones are replaced and the selection is kept |
| SceneProperties.MouseDownRaisesTopmost | flagstone.js:235-247 | pressing on topmost hit `i` moves stone `i` to the top, keeps the stones below it in place and shifts those above it down by one; it also selects stone `i` and records the offset from it |
| SceneProperties.DragToPressPointKeepsPosition | flagstone.js:239-267 | with unique ids and no snapping, moving back to the press point leaves the raised stone where it was |
| SceneProperties.MouseMoveIdempotent | flagstone.js:254-270 | two moves to the same point equal one move |
| SceneProperties.SnappedDragOnGrid | flagstone.js:261-264 | with snapping the dragged stone lands on grid multiples, and a target already on the grid is kept |
| SceneProperties.PressDragRelease | flagstone.js:231-274 | a press that hits starts a drag, and release ends it while keeping the selection |
| SceneProperties.DragScenario | flagstone.js:231-270 | a stone at (100, 100) pressed at its centre has offset (0, 0), and a drag to (150, 120) puts it at (150, 120) |
| SceneProperties.FlipSelectedTwice | flagstone.js:325-330 | flipping twice is the identity on the scene |
| SceneProperties.RotateKeyTwice | flagstone.js:295-302 | two `r` keys equal one rotation by 30 degrees |
| SceneProperties.RotateKeysCancel | flagstone.js:295-306 | an `e` key undoes an `r` key |
| SceneProperties.DeleteRemovesSelected | flagstone.js:332-341 | with unique ids, delete removes exactly the selected id, shortens the stones by one, keeps ids unique and clears the selection |
| SceneProperties.PaletteNeighboursOverlap | flagstone.js:84-92 | in the palette layout (seven entries 100 apart along y = 60) the point halfway between entries `i` and `i + 1` hits both |
| SceneProperties.PaletteClickTakesFirstEntry | flagstone.js:279-292 | in that layout, a click that hits both entry `i` and entry `i + 1` copies the shape and colour of entry `i` |
| SceneProperties.Step | flagstone.js:23-35 | no handler changes the palette or the grid size |
| SceneProperties.StepKeepsWellFormed | flagstone.js:231-365 | every command except regeneration keeps ids unique and the selection on a placed stone, given fresh ids for new stones |
| SceneProperties.Run | flagstone.js:23-35 | a run of commands never changes the palette or the grid size |
| SceneProperties.RunKeepsWellFormed | flagstone.js:231-365 | the invariant holds after any admissible run of commands |
| SceneProperties.InitialWellFormed | flagstone.js:8-19 | the constructor's state satisfies the invariant when the initial stones have unique ids |
| SceneProperties.RegenerateLeavesStaleSelection | flagstone.js:94-103 | after regeneration the selection names no placed stone, and delete, flip and rotate are then no-ops |

## Left out

- Canvas rendering (`drawStone`, `drawGrid`, `draw`, `drawPalette`) is left out. It only paints, with random texture strokes, and changes no state.
- DOM plumbing is left out: event listener wiring, `getMousePos`, the global button wrappers and the `load` hook. These are browser I/O. The handlers take the pointer position already converted to canvas coordinates.
- Polygon generation (`generateStoneShape`, `generateIrregularPolygon`) is left out. It draws random angles and radii and uses `cos`/`sin`. Shapes are parameters and are only copied.
- Every `Math.random` draw is left out. This covers positions, the colour index, the initial rotation, ids and the three regenerated stones. The caller supplies each value. `generatePaletteStones` is covered only through the layout predicate `SceneProperties.IsPaletteLayout`.
- Rotation is left out as radians. It is floating point, so the model keeps an integer degree accumulator. Rotating by `d` adds `d`, where the source adds `d * π / 180`.
- The percent-to-amount step `Math.round(2.55 * percent)` is left out because it uses floating point. The colour operations take the integer amount directly.
- Colour.ParseInt16: hex runs longer than 13 digits are parsed exactly here, whereas JavaScript rounds them to a double before ToInt32. This is floating point, and no colour string in the program comes close.
- Grid.Snap: coordinates are integers. The source divides floating-point pointer positions. For integers, JavaScript's rounding of the quotient does not change the result.
- Simulator.MouseDown: the selection is an id rather than an object reference. This matches the source only while placed ids are unique. The invariant lemmas state that assumption, and new ids are required to be fresh.
