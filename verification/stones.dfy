/** The stone record of the simulator and the sequence operations the scene
    is built from: the circular hit test, the two search orders (topmost-first
    on the canvas, first-in-order on the palette), the id lookup of
    `deleteSelected`, the remove-and-append that raises a stone, and the
    placement edits applied to the stone a selection names. */
module Stones {
  import opened Wrappers
  import Colour

  datatype Point = Point(x: int, y: int)

  /** A stone outline: its vertices in drawing order, in the stone's own
      coordinates. The modelled code only copies shapes, never reads them. */
  type Shape = seq<Point>

  type StoneId = string

  /** One placed (or palette) stone. Rotation is kept in whole degrees. */
  datatype Stone = Stone(
    id: StoneId,
    x: int,
    y: int,
    shape: Shape,
    color: string,
    rotation: int,
    flipped: bool)

  /** The fixed colour table `createStone` draws from. */
  const StoneColours: seq<string> := [
    "#8D7053", "#A67B5B", "#967117", "#B8860B",
    "#CD853F", "#DEB887", "#F4A460", "#D2B48C",
    "#BC9A6A", "#9F8A78"
  ]

  /** Every colour a stone can get is a well-formed `#RRGGBB` string, so the
      colour functions read it channel by channel. */
  lemma StoneColoursAreHex()
    ensures forall i :: 0 <= i < |StoneColours| ==> Colour.IsHexColour(StoneColours[i])
  {
  }

  /** `createStone(x, y, shape)`: the randomly drawn parts (shape when none is
      given, colour index, rotation, id) are supplied by the caller. */
  function CreateStone(at: Point, shape: Shape, colourIndex: nat, rotation: int, id: StoneId): (s: Stone)
    requires colourIndex < |StoneColours|
    ensures s.color == StoneColours[colourIndex] && Colour.IsHexColour(s.color)
    ensures s.rotation == rotation
    ensures !s.flipped && s.id == id && s.shape == shape
    ensures Point(s.x, s.y) == at
  {
    StoneColoursAreHex();
    Stone(id, at.x, at.y, shape, StoneColours[colourIndex], rotation, false)
  }

  /* ---------------------------------------------------------------------- */
  /* Hit testing                                                             */
  /* ---------------------------------------------------------------------- */

  /** The approximate stone radius used for every hit test. */
  const HitRadius: int := 80

  /** `isPointInStone`: the point lies strictly inside the circle of radius 80
      around the stone's position, compared on squared distances. */
  predicate IsPointInStone(p: Point, s: Stone) {
    var dx, dy := p.x - s.x, p.y - s.y;
    dx * dx + dy * dy < HitRadius * HitRadius
  }

  /** The squared-distance test is the source's `sqrt(dx² + dy²) < 80`: for
      any non-negative real whose square is the squared distance. */
  lemma HitIsDistanceBelowRadius(p: Point, s: Stone, dist: real)
    requires dist >= 0.0
    requires var dx, dy := p.x - s.x, p.y - s.y; dist * dist == (dx * dx + dy * dy) as real
    ensures IsPointInStone(p, s) <==> dist < 80.0
  {
    if dist < 80.0 {
      assert dist * dist <= dist * 80.0 < 80.0 * 80.0;
    } else {
      assert dist * dist >= dist * 80.0 >= 80.0 * 80.0;
    }
  }

  predicate NoHit(stones: seq<Stone>, p: Point) {
    forall j :: 0 <= j < |stones| ==> !IsPointInStone(p, stones[j])
  }

  /** Index `i` is the stone the canvas press picks: hit, and nothing above it is. */
  predicate IsTopmostHit(stones: seq<Stone>, p: Point, i: int) {
    0 <= i < |stones| && IsPointInStone(p, stones[i])
    && forall j :: i < j < |stones| ==> !IsPointInStone(p, stones[j])
  }

  /** The loop of `handleMouseDown`: scan from the last (topmost) stone down
      and stop at the first hit. */
  function TopmostHit(stones: seq<Stone>, p: Point): (r: Option<nat>)
    ensures r.None? <==> NoHit(stones, p)
    ensures r.Some? ==> IsTopmostHit(stones, p, r.value)
  {
    if |stones| == 0 then None
    else if IsPointInStone(p, stones[|stones| - 1]) then Some(|stones| - 1)
    else TopmostHit(stones[..|stones| - 1], p)
  }

  /** There is only one topmost hit. */
  lemma TopmostHitUnique(stones: seq<Stone>, p: Point, i: int, k: int)
    requires IsTopmostHit(stones, p, i) && IsTopmostHit(stones, p, k)
    ensures i == k
  {
  }

  /** Index `i` is the palette entry a palette click picks: hit, and nothing
      before it is. */
  predicate IsFirstHit(stones: seq<Stone>, p: Point, i: int) {
    0 <= i < |stones| && IsPointInStone(p, stones[i])
    && forall j :: 0 <= j < i ==> !IsPointInStone(p, stones[j])
  }

  /** The `for (let stone of this.paletteStones)` loop of
      `handlePaletteClick`: the first hit in palette order. */
  function FirstHit(stones: seq<Stone>, p: Point): (r: Option<nat>)
    ensures r.None? <==> NoHit(stones, p)
    ensures r.Some? ==> IsFirstHit(stones, p, r.value)
  {
    if |stones| == 0 then None
    else if IsPointInStone(p, stones[0]) then Some(0)
    else match FirstHit(stones[1..], p)
      case None => None
      case Some(k) => Some(k + 1)
  }

  /* ---------------------------------------------------------------------- */
  /* Ids and lookup                                                          */
  /* ---------------------------------------------------------------------- */

  function Ids(stones: seq<Stone>): set<StoneId> {
    set j | 0 <= j < |stones| :: stones[j].id
  }

  /** No two placed stones share an id. The source draws ids at random; the
      model takes fresh ids as given. */
  predicate UniqueIds(stones: seq<Stone>) {
    forall i, j :: 0 <= i < |stones| && 0 <= j < |stones| && stones[i].id == stones[j].id ==> i == j
  }

  /** `stones.findIndex(s => s.id === id)`, with `None` for -1. */
  function FindById(stones: seq<Stone>, id: StoneId): (r: Option<nat>)
    ensures r.None? <==> id !in Ids(stones)
    ensures r.Some? ==> r.value < |stones| && stones[r.value].id == id
    ensures r.Some? ==> forall j :: 0 <= j < r.value ==> stones[j].id != id
  {
    if |stones| == 0 then None
    else if stones[0].id == id then Some(0)
    else match FindById(stones[1..], id)
      case None => None
      case Some(k) => Some(k + 1)
  }

  /* ---------------------------------------------------------------------- */
  /* Reordering                                                              */
  /* ---------------------------------------------------------------------- */

  /** `stones.splice(i, 1)`. */
  function RemoveAt(stones: seq<Stone>, i: nat): (r: seq<Stone>)
    requires i < |stones|
    ensures |r| == |stones| - 1
    ensures forall j :: 0 <= j < i ==> r[j] == stones[j]
    ensures forall j :: i <= j < |r| ==> r[j] == stones[j + 1]
    ensures multiset(r) + multiset{stones[i]} == multiset(stones)
  {
    assert stones == stones[..i] + [stones[i]] + stones[i + 1..];
    stones[..i] + stones[i + 1..]
  }

  /** Splice stone `i` out and push it on top: the raise of `handleMouseDown`. */
  function Promote(stones: seq<Stone>, i: nat): (r: seq<Stone>)
    requires i < |stones|
    ensures |r| == |stones| && r[|r| - 1] == stones[i]
    ensures forall j :: 0 <= j < i ==> r[j] == stones[j]
    ensures forall j :: i <= j < |r| - 1 ==> r[j] == stones[j + 1]
    ensures multiset(r) == multiset(stones)
  {
    RemoveAt(stones, i) + [stones[i]]
  }

  /** Equal multisets of stones carry the same ids. */
  lemma SameIdsOfPermutation(a: seq<Stone>, b: seq<Stone>)
    requires multiset(a) == multiset(b)
    ensures Ids(a) == Ids(b)
  {
    forall id | id in Ids(a) ensures id in Ids(b) {
      var j :| 0 <= j < |a| && a[j].id == id;
      assert a[j] in multiset(b);
    }
    forall id | id in Ids(b) ensures id in Ids(a) {
      var j :| 0 <= j < |b| && b[j].id == id;
      assert b[j] in multiset(a);
    }
  }

  /** Raising a stone keeps ids unique. */
  lemma PromoteKeepsUnique(stones: seq<Stone>, i: nat)
    requires i < |stones| && UniqueIds(stones)
    ensures UniqueIds(Promote(stones, i))
    ensures Ids(Promote(stones, i)) == Ids(stones)
  {
    var r := Promote(stones, i);
    SameIdsOfPermutation(r, stones);
    forall a, b | 0 <= a < |r| && 0 <= b < |r| && r[a].id == r[b].id ensures a == b {
      assert r[a] == stones[Origin(a, i, |r|)] && r[b] == stones[Origin(b, i, |r|)];
    }
  }

  /** Where the stone at index `j` after raising index `i` came from. */
  function Origin(j: nat, i: nat, n: nat): nat {
    if j < i then j else if j < n - 1 then j + 1 else i
  }

  /** Splicing out one stone keeps ids unique and, ids being unique, takes
      exactly its id out of the set. */
  lemma RemoveAtIds(stones: seq<Stone>, i: nat)
    requires i < |stones| && UniqueIds(stones)
    ensures UniqueIds(RemoveAt(stones, i))
    ensures Ids(RemoveAt(stones, i)) == Ids(stones) - {stones[i].id}
  {
    var r := RemoveAt(stones, i);
    forall a, b | 0 <= a < |r| && 0 <= b < |r| && r[a].id == r[b].id ensures a == b {
      var a', b' := if a < i then a else a + 1, if b < i then b else b + 1;
      assert r[a] == stones[a'] && r[b] == stones[b'];
    }
    forall x | x in Ids(stones) - {stones[i].id} ensures x in Ids(r) {
      var j :| 0 <= j < |stones| && stones[j].id == x;
      assert j != i;
      if j < i { assert r[j].id == x; } else { assert r[j - 1].id == x; }
    }
    forall x | x in Ids(r) ensures x in Ids(stones) - {stones[i].id} {
      var j :| 0 <= j < |r| && r[j].id == x;
      var j' := if j < i then j else j + 1;
      assert stones[j'].id == x && j' != i;
    }
  }

  /** Pushing a stone with a new id keeps ids unique and adds that id. */
  lemma AppendFresh(stones: seq<Stone>, s: Stone)
    requires UniqueIds(stones) && s.id !in Ids(stones)
    ensures UniqueIds(stones + [s])
    ensures Ids(stones + [s]) == Ids(stones) + {s.id}
  {
    var r := stones + [s];
    assert forall j :: 0 <= j < |stones| ==> r[j].id == stones[j].id && stones[j].id in Ids(stones);
    forall x | x in Ids(r) ensures x in Ids(stones) + {s.id} {
      var j :| 0 <= j < |r| && r[j].id == x;
      if j < |stones| { assert stones[j].id == x; }
    }
    forall x | x in Ids(stones) ensures x in Ids(r) {
      var j :| 0 <= j < |stones| && stones[j].id == x;
      assert r[j].id == x;
    }
    assert r[|stones|].id == s.id;
  }

  /* ---------------------------------------------------------------------- */
  /* Placement edits                                                         */
  /* ---------------------------------------------------------------------- */

  /** What the simulator ever changes on a placed stone: its position
      (dragging), its rotation and its flip flag. */
  datatype Edit = MoveTo(x: int, y: int) | Flip | Rotate(degrees: int)

  /** Apply one edit to a stone. Its identity, outline and colour never change. */
  function ApplyEdit(s: Stone, e: Edit): (t: Stone)
    ensures t.id == s.id && t.shape == s.shape && t.color == s.color
    ensures e.MoveTo? ==> t.x == e.x && t.y == e.y && t.rotation == s.rotation && t.flipped == s.flipped
    ensures e.Flip? ==> t.flipped != s.flipped && t.x == s.x && t.y == s.y && t.rotation == s.rotation
    ensures e.Rotate? ==> t.rotation - s.rotation == e.degrees && t.x == s.x && t.y == s.y && t.flipped == s.flipped
  {
    match e
    case MoveTo(x, y) => s.(x := x, y := y)
    case Flip => s.(flipped := !s.flipped)
    case Rotate(d) => s.(rotation := s.rotation + d)
  }

  /** Edit the stone the selection names. The source edits the selected
      object itself; with unique ids that is the one stone carrying its id. */
  function EditById(stones: seq<Stone>, id: StoneId, e: Edit): (r: seq<Stone>)
    ensures |r| == |stones|
    ensures forall j :: 0 <= j < |r| ==>
              r[j].id == stones[j].id && r[j].shape == stones[j].shape && r[j].color == stones[j].color
    ensures forall j :: 0 <= j < |r| && stones[j].id != id ==> r[j] == stones[j]
    ensures forall j :: 0 <= j < |r| && stones[j].id == id ==> r[j] == ApplyEdit(stones[j], e)
  {
    seq(|stones|, j requires 0 <= j < |stones| =>
      if stones[j].id == id then ApplyEdit(stones[j], e) else stones[j])
  }

  /** An edit leaves the set of ids alone. */
  lemma EditKeepsIds(stones: seq<Stone>, id: StoneId, e: Edit)
    ensures Ids(EditById(stones, id, e)) == Ids(stones)
    ensures UniqueIds(stones) ==> UniqueIds(EditById(stones, id, e))
  {
    var r := EditById(stones, id, e);
    forall x | x in Ids(stones) ensures x in Ids(r) {
      var j :| 0 <= j < |stones| && stones[j].id == x;
      assert r[j].id == x;
    }
  }

  /** Flipping twice restores every stone. */
  lemma FlipTwice(stones: seq<Stone>, id: StoneId)
    ensures EditById(EditById(stones, id, Flip), id, Flip) == stones
  {
    var r := EditById(EditById(stones, id, Flip), id, Flip);
    forall j | 0 <= j < |stones| ensures r[j] == stones[j] {
      if stones[j].id == id {
        assert r[j].flipped == stones[j].flipped;
      }
    }
  }

  /** Moving to a position twice is moving there once. */
  lemma MoveToIdempotent(stones: seq<Stone>, id: StoneId, x: int, y: int)
    ensures EditById(EditById(stones, id, MoveTo(x, y)), id, MoveTo(x, y)) == EditById(stones, id, MoveTo(x, y))
  {
  }

  /** Two rotations add up. */
  lemma RotateAdds(stones: seq<Stone>, id: StoneId, a: int, b: int)
    ensures EditById(EditById(stones, id, Rotate(a)), id, Rotate(b)) == EditById(stones, id, Rotate(a + b))
  {
    var r := EditById(EditById(stones, id, Rotate(a)), id, Rotate(b));
    var q := EditById(stones, id, Rotate(a + b));
    forall j | 0 <= j < |stones| ensures r[j] == q[j] {
    }
  }
}
