/** Snap-to-grid rounding of a dragged coordinate:
    `Math.round(n / gridSize) * gridSize`. `Math.round` rounds halves up
    (towards +infinity), so over integers the nearest multiple is
    `floor((2n + g) / 2g) * g`. */
module Grid {

  /** The grid cell size; the simulator fixes it at 20 and never changes it. */
  type GridSize = g: int | 0 < g witness 20

  const DefaultGridSize: GridSize := 20

  /** The multiple of `g` nearest to `n`, halves going up. */
  function Snap(n: int, g: GridSize): (r: int)
    ensures r % g == 0
    ensures 2 * (n - r) < g && 2 * (r - n) <= g
  {
    var q := (2 * n + g) / (2 * g);
    QuotientBounds(2 * n + g, 2 * g);
    MultipleOf(q, g);
    q * g
  }

  lemma QuotientBounds(a: int, b: int)
    requires b > 0
    ensures (a / b) * b <= a < (a / b) * b + b
  {
  }

  lemma MultipleOf(q: int, g: int)
    requires g > 0
    ensures (q * g) % g == 0
  {
    var m := q * g;
    var d, r := m / g, m % g;
    assert m == d * g + r && 0 <= r < g;
    assert (q - d) * g == r;
    if q - d >= 1 {
      MulMonotone(1, q - d, g);
    } else if q - d <= -1 {
      MulMonotone(q - d, -1, g);
    }
  }

  /** Snap is the unique multiple of `g` within half a cell of `n` (a tie
      going to the upper multiple): an independent definition of the rounding. */
  lemma SnapUnique(n: int, g: GridSize, m: int)
    requires m % g == 0
    requires 2 * (n - m) < g && 2 * (m - n) <= g
    ensures m == Snap(n, g)
  {
    var r := Snap(n, g);
    var a, b := m / g, r / g;
    assert m == a * g && r == b * g;
    // Both multiples lie in the window [n - g/2, n + g/2), which is narrower
    // than one cell, so their quotients cannot differ.
    assert m - r < g && r - m < g;
    NarrowGap(a, b, g);
  }

  lemma NarrowGap(a: int, b: int, g: int)
    requires g > 0
    requires a * g - b * g < g && b * g - a * g < g
    ensures a == b
  {
    assert a * g - b * g == (a - b) * g;
    if a - b >= 1 {
      MulMonotone(1, a - b, g);
    } else if a - b <= -1 {
      assert b * g - a * g == (b - a) * g;
      MulMonotone(1, b - a, g);
    }
  }

  /** A coordinate already on the grid stays where it is. */
  lemma SnapFixesMultiples(n: int, g: GridSize)
    requires n % g == 0
    ensures Snap(n, g) == n
  {
    SnapUnique(n, g, n);
  }

  /** Snapping twice is snapping once. */
  lemma SnapIdempotent(n: int, g: GridSize)
    ensures Snap(Snap(n, g), g) == Snap(n, g)
  {
    SnapFixesMultiples(Snap(n, g), g);
  }

  /** Snap agrees with `Math.round(n / g) * g` over the reals, `Math.round(x)`
      being `floor(x + 1/2)`. */
  lemma SnapIsRoundHalfUp(n: int, g: GridSize)
    ensures Snap(n, g) == (n as real / g as real + 0.5).Floor * g
  {
    var q := (2 * n + g) / (2 * g);
    QuotientBounds(2 * n + g, 2 * g);
    var x := n as real / g as real + 0.5;
    assert x == (2 * n + g) as real / (2 * g) as real;
    assert q as real <= x by {
      assert (q * (2 * g)) as real <= (2 * n + g) as real;
      assert q as real * (2 * g) as real <= (2 * n + g) as real;
    }
    assert x < (q + 1) as real by {
      assert (2 * n + g) as real < ((q + 1) * (2 * g)) as real;
      assert (2 * n + g) as real < (q + 1) as real * (2 * g) as real;
    }
    assert x.Floor == q;
  }

  /** Rounding preserves order: a stone dragged further right never snaps
      further left. */
  lemma SnapMonotone(n: int, m: int, g: GridSize)
    requires n <= m
    ensures Snap(n, g) <= Snap(m, g)
  {
    var a := (2 * n + g) / (2 * g);
    var b := (2 * m + g) / (2 * g);
    QuotientBounds(2 * n + g, 2 * g);
    QuotientBounds(2 * m + g, 2 * g);
    if a > b {
      assert a * (2 * g) >= (b + 1) * (2 * g) by { MulMonotone(b + 1, a, 2 * g); }
      assert false;
    }
    MulMonotone(a, b, g);
  }

  lemma MulMonotone(a: int, b: int, c: int)
    requires a <= b && c > 0
    ensures a * c <= b * c
  {
  }
}
