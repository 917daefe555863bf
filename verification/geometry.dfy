/** Plane geometry of the zone: positions, the awareness window and the two
    tests the range query applies to a candidate (the perpendicular band and
    the true distance). Coordinates are integers; the distance test compares
    squared distances, which is exact for the square root it stands for. */
module Geometry {

  datatype Pos = Pos(x: int, y: int)

  /** Half-extents of the awareness window on each axis (not a radius). */
  datatype Area = Area(x: int, y: int)

  function Abs(a: int): (r: nat)
    ensures r == a || r == -a
  {
    if a < 0 then -a else a
  }

  /** The gap the range query compares with a half-extent: the difference of
      the absolute values, not the absolute difference. It never exceeds the
      true gap, so a cut-off on it never skips a node that is within reach. */
  function AbsGap(a: int, b: int): (r: nat)
    ensures r <= Abs(a - b)
    ensures 0 <= a && 0 <= b ==> r == Abs(a - b)
  {
    Abs(Abs(a) - Abs(b))
  }

  function SqDist(a: Pos, b: Pos): int
  {
    (a.x - b.x) * (a.x - b.x) + (a.y - b.y) * (a.y - b.y)
  }

  /** Euclidean distance between a and b is at most r. */
  predicate WithinDistance(a: Pos, b: Pos, r: int)
  {
    0 <= r && SqDist(a, b) <= r * r
  }

  /** The admission test of both sweeps, seen from `self`: the perpendicular
      band test on y against area.y and the distance test against area.x. */
  predicate InWindow(self: Pos, other: Pos, area: Area)
  {
    AbsGap(other.y, self.y) <= area.y && WithinDistance(self, other, area.x)
  }

  lemma SquareBelow(u: int, r: int)
    requires 0 <= r < Abs(u)
    ensures r * r < u * u
  {
    var a := Abs(u);
    assert u * u == a * a;
    assert r * r <= r * a;
    assert r * a < a * a;
  }

  lemma SquareNonNegative(u: int)
    ensures 0 <= u * u
  {
    if u < 0 {
      assert u * u == (-u) * (-u);
    }
  }

  /** Within distance r, each axis gap is at most r. */
  lemma {:induction false} DistanceBoundsAxisGaps(a: Pos, b: Pos, r: int)
    requires WithinDistance(a, b, r)
    ensures Abs(a.x - b.x) <= r && Abs(a.y - b.y) <= r
  {
    SquareNonNegative(a.x - b.x);
    SquareNonNegative(a.y - b.y);
    if r < Abs(a.x - b.x) {
      SquareBelow(a.x - b.x, r);
    }
    if r < Abs(a.y - b.y) {
      SquareBelow(a.y - b.y, r);
    }
  }

  /** Both tests look the same from either end. */
  lemma InWindowSymmetric(a: Pos, b: Pos, area: Area)
    ensures InWindow(a, b, area) <==> InWindow(b, a, area)
  {
    assert (a.x - b.x) * (a.x - b.x) == (b.x - a.x) * (b.x - a.x);
    assert (a.y - b.y) * (a.y - b.y) == (b.y - a.y) * (b.y - a.y);
  }

  /** Box-then-circle: the distance test uses area.x, so a band half-height
      area.y at least area.x never rejects anything the distance test keeps. */
  lemma BandRedundantWhenTaller(self: Pos, other: Pos, area: Area)
    requires area.x <= area.y
    ensures InWindow(self, other, area) <==> WithinDistance(self, other, area.x)
  {
    if WithinDistance(self, other, area.x) {
      DistanceBoundsAxisGaps(self, other, area.x);
    }
  }

  /** The band compares absolute values: an entity mirrored across the x axis
      passes the band test even when its true y gap is wider than the band. */
  lemma MirroredEntityPassesBand()
    ensures InWindow(Pos(0, 3), Pos(0, -3), Area(10, 1))
    ensures Abs(3 - -3) > 1
  {
  }
}
