/** Distances, grid cells and the line-of-sight bound. */
module Geometry {
  import opened Types

  const R_EARTH: int := 6371
  const ATMOSPHERE_HEIGHT: int := 80
  const R_ATMOSPHERE: int := R_EARTH + ATMOSPHERE_HEIGHT

  /** Square of the maximum line-of-sight distance between two satellites at
      altitude `h`: (2 * sqrt(r^2 - R_ATMOSPHERE^2))^2 with r = R_EARTH + h.
      Squared, it is an exact integer for a whole-kilometre altitude. Below
      the atmosphere it is negative: the radicand whose square root the
      scripts would take has no real root there. */
  function MaxVisibilityDistanceSquared(h: int): (d: int)
    ensures R_EARTH + h > 0 ==> (d >= 0 <==> h >= ATMOSPHERE_HEIGHT)
  {
    RadicandSign(R_EARTH + h);
    4 * ((R_EARTH + h) * (R_EARTH + h) - R_ATMOSPHERE * R_ATMOSPHERE)
  }

  /** For a positive radius, the square reaches the atmosphere's square
      exactly when the radius reaches the atmosphere. */
  lemma RadicandSign(r: int)
    ensures r > 0 ==> (r * r >= R_ATMOSPHERE * R_ATMOSPHERE <==> r >= R_ATMOSPHERE)
  {
    if r > R_ATMOSPHERE {
      SquareGrows(R_ATMOSPHERE, r);
    } else if 0 < r < R_ATMOSPHERE {
      SquareGrows(r, R_ATMOSPHERE);
    }
  }

  /** The maximum visibility distance grows strictly with altitude. */
  lemma MaxVisibilityIncreasing(h1: int, h2: int)
    requires 0 <= R_EARTH + h1 && h1 < h2
    ensures MaxVisibilityDistanceSquared(h1) < MaxVisibilityDistanceSquared(h2)
  {
    var r1, r2 := R_EARTH + h1, R_EARTH + h2;
    assert r2 * r2 - r1 * r1 == (r2 - r1) * (r2 + r1);
    assert (r2 - r1) * (r2 + r1) > 0;
  }

  /** The two shells of the uniform constellation, at 540 km and 570 km, with
      their distances bracketed between whole kilometres. */
  lemma ShellDistances()
    ensures 4958 * 4958 <= MaxVisibilityDistanceSquared(540) < 4959 * 4959
    ensures 5123 * 5123 <= MaxVisibilityDistanceSquared(570) < 5124 * 5124
  {
  }

  /** Squared Euclidean distance. The scripts compare its square root with
      the maximum distance; `Within` compares it with the squared bound. */
  function DistSq(a: Pos, b: Pos): (d: int)
    ensures d >= 0
    ensures d == 0 <==> a == b
  {
    var dx, dy, dz := a.x - b.x, a.y - b.y, a.z - b.z;
    assert dx * dx >= 0 && dy * dy >= 0 && dz * dz >= 0;
    dx * dx + dy * dy + dz * dz
  }

  /** The visibility test of the scripts: distance at most `maxDist`. A
      negative bound admits no pair, as a square root is never negative. */
  predicate Within(a: Pos, b: Pos, maxDist: int)
  {
    0 <= maxDist && DistSq(a, b) <= maxDist * maxDist
  }

  lemma WithinSymmetric(a: Pos, b: Pos, maxDist: int)
    ensures Within(a, b, maxDist) == Within(b, a, maxDist)
  {
    assert (a.x - b.x) * (a.x - b.x) == (b.x - a.x) * (b.x - a.x);
    assert (a.y - b.y) * (a.y - b.y) == (b.y - a.y) * (b.y - a.y);
    assert (a.z - b.z) * (a.z - b.z) == (b.z - a.z) * (b.z - a.z);
  }

  lemma WithinSelf(a: Pos, maxDist: int)
    requires maxDist >= 0
    ensures Within(a, a, maxDist)
  {
    assert DistSq(a, a) == 0;
    assert maxDist * maxDist >= 0;
  }

  /** Each coordinate of `a` is within `g` of the same coordinate of `b`. */
  predicate CoordsWithin(a: Pos, b: Pos, g: int)
  {
    -g <= a.x - b.x <= g && -g <= a.y - b.y <= g && -g <= a.z - b.z <= g
  }

  lemma SquareGrows(d: int, y: int)
    requires 0 <= d < y
    ensures d * d < y * y
  {
    assert d * d <= d * y;
    assert d * y < y * y;
  }

  lemma SquareBound(x: int, d: int)
    requires d >= 0 && x * x <= d * d
    ensures -d <= x <= d
  {
    if x > d {
      SquareGrows(d, x);
    } else if x < -d {
      assert (-x) * (-x) == x * x;
      SquareGrows(d, -x);
    }
  }

  /** Two satellites in range differ by at most the distance on every axis. */
  lemma WithinCoords(a: Pos, b: Pos, maxDist: int)
    requires maxDist > 0 && Within(a, b, maxDist)
    ensures CoordsWithin(a, b, maxDist)
  {
    var dx, dy, dz := a.x - b.x, a.y - b.y, a.z - b.z;
    var sx, sy, sz := dx * dx, dy * dy, dz * dz;
    assert DistSq(a, b) == sx + sy + sz;
    assert sx >= 0 && sy >= 0 && sz >= 0;
    assert sx <= maxDist * maxDist && sy <= maxDist * maxDist && sz <= maxDist * maxDist;
    SquareBound(dx, maxDist);
    SquareBound(dy, maxDist);
    SquareBound(dz, maxDist);
  }

  /** Python's `int(p / g)`: division truncated toward zero, unlike Dafny's
      Euclidean `/` on negative numerators. */
  function TruncDiv(p: int, g: int): (q: int)
    requires g > 0
    ensures 0 <= p ==> 0 <= g * q <= p < g * q + g
    ensures p < 0 ==> g * q - g < p <= g * q <= 0
  {
    if p >= 0 then
      DivBounds(p, g);
      p / g
    else
      DivBounds(-p, g);
      -((-p) / g)
  }

  /** Grid cell key of a position. */
  datatype Cell = Cell(x: int, y: int, z: int)

  function CellOf(p: Pos, g: int): Cell
    requires g > 0
  {
    Cell(TruncDiv(p.x, g), TruncDiv(p.y, g), TruncDiv(p.z, g))
  }

  /** Two cells touch (share a face, an edge or a corner) or coincide. */
  predicate CellsAdjacent(c: Cell, d: Cell)
  {
    -1 <= c.x - d.x <= 1 && -1 <= c.y - d.y <= 1 && -1 <= c.z - d.z <= 1
  }

  lemma DivBounds(p: int, g: int)
    requires p >= 0 && g > 0
    ensures g * (p / g) <= p < g * (p / g) + g
    ensures p / g >= 0
  {
  }

  lemma MulLess(a: int, b: int, g: int)
    requires g > 0 && g * a < g * b
    ensures a < b
  {
  }

  /** Floor quotients of nonnegative numbers at most `g` apart differ by at most one. */
  lemma FloorDivClose(a: int, b: int, g: int)
    requires a >= 0 && b >= 0 && g > 0 && a <= b + g
    ensures a / g <= b / g + 1
  {
    DivBounds(a, g);
    DivBounds(b, g);
    assert g * (a / g) < g * (b / g + 2) by {
      assert g * (b / g + 2) == g * (b / g) + g + g;
    }
    MulLess(a / g, b / g + 2, g);
  }

  /** Nonnegative numbers with sum at most `g` have floor quotients summing to at most one. */
  lemma FloorDivSum(a: int, b: int, g: int)
    requires a >= 0 && b >= 0 && g > 0 && a + b <= g
    ensures a / g + b / g <= 1
  {
    DivBounds(a, g);
    DivBounds(b, g);
    if a / g >= 1 {
      assert a >= g by { assert g * (a / g) >= g * 1; }
      assert b < g;
      assert b / g == 0;
      FloorDivClose(a, 0, g);
    } else {
      assert a / g == 0;
      FloorDivClose(b, 0, g);
    }
  }

  /** Truncating cell keys of coordinates at most one cell size apart differ
      by at most one, on both sides of zero. This is what makes the
      27-cell query complete even though cell 0 spans (-g, g). */
  lemma {:induction false} TruncDivClose(a: int, b: int, g: int)
    requires g > 0 && -g <= a - b <= g
    ensures -1 <= TruncDiv(a, g) - TruncDiv(b, g) <= 1
  {
    if a >= 0 && b >= 0 {
      FloorDivClose(a, b, g);
      FloorDivClose(b, a, g);
    } else if a < 0 && b < 0 {
      FloorDivClose(-a, -b, g);
      FloorDivClose(-b, -a, g);
    } else if a >= 0 {
      FloorDivSum(a, -b, g);
      DivBounds(a, g);
      DivBounds(-b, g);
    } else {
      FloorDivSum(-a, b, g);
      DivBounds(-a, g);
      DivBounds(b, g);
    }
  }

  /** Positions within `g` on every axis fall in adjacent cells. */
  lemma CoordsWithinAdjacent(a: Pos, b: Pos, g: int)
    requires g > 0 && CoordsWithin(a, b, g)
    ensures CellsAdjacent(CellOf(a, g), CellOf(b, g))
  {
    TruncDivClose(a.x, b.x, g);
    TruncDivClose(a.y, b.y, g);
    TruncDivClose(a.z, b.z, g);
  }

  /** Cell 0 holds every coordinate strictly between -g and g: it is two
      cells wide, while every other cell n spans g consecutive values. */
  lemma {:induction false} CellWidth(p: int, g: int)
    requires g > 0
    ensures TruncDiv(p, g) == 0 <==> -g < p < g
    ensures TruncDiv(p, g) > 0 <==> p >= g
    ensures TruncDiv(p, g) < 0 <==> p <= -g
  {
    if p >= 0 {
      DivBounds(p, g);
      if p < g { assert p / g == 0; } else {
        assert p / g >= 1 by { FloorDivClose(g, p, g); assert g / g == 1; }
      }
    } else {
      DivBounds(-p, g);
      if -p < g { assert (-p) / g == 0; } else {
        assert (-p) / g >= 1 by { FloorDivClose(g, -p, g); assert g / g == 1; }
      }
    }
  }
}
