/**
 * Circle against axis-aligned rectangle overlap on integer coordinates, the
 * test a projectile (a circle) and a robot (a square) are put through.
 * The circle overlaps the rectangle when the point of the rectangle closest
 * to the circle's centre lies within the radius.
 */
module Geometry {

  /** `v` pulled into the closed range [lo, hi]. */
  function Clamp(v: int, lo: int, hi: int): (r: int)
    requires lo <= hi
    ensures lo <= r <= hi
    ensures lo <= v <= hi ==> r == v
    ensures r == v || r == lo || r == hi
  {
    if v < lo then lo else if v > hi then hi else v
  }

  /** The circle of radius `radius` at (cx, cy) overlaps the `w` by `h` rectangle at (rx, ry). */
  predicate CircleHitsRect(cx: int, cy: int, radius: nat, rx: int, ry: int, w: nat, h: nat)
  {
    var qx := Clamp(cx, rx, rx + w);
    var qy := Clamp(cy, ry, ry + h);
    (cx - qx) * (cx - qx) + (cy - qy) * (cy - qy) <= radius * radius
  }

  /** A square no larger than `r * r` has its root within [-r, r]. */
  lemma SquareGrows(d: int, r: nat)
    requires d * d <= r * r
    ensures 0 - r <= d <= r
  {
  }

  /** A circle whose centre lies in the rectangle overlaps it. */
  lemma CentreInsideHits(cx: int, cy: int, radius: nat, rx: int, ry: int, w: nat, h: nat)
    requires rx <= cx <= rx + w && ry <= cy <= ry + h
    ensures CircleHitsRect(cx, cy, radius, rx, ry, w, h)
  {
  }

  /** An overlapping circle has its centre in the rectangle grown by the radius on every side. */
  lemma HitsWithinReach(cx: int, cy: int, radius: nat, rx: int, ry: int, w: nat, h: nat)
    requires CircleHitsRect(cx, cy, radius, rx, ry, w, h)
    ensures rx - radius <= cx <= rx + w + radius
    ensures ry - radius <= cy <= ry + h + radius
  {
    var dx := cx - Clamp(cx, rx, rx + w);
    var dy := cy - Clamp(cy, ry, ry + h);
    assert dx * dx >= 0 && dy * dy >= 0;
    SquareGrows(dx, radius);
    SquareGrows(dy, radius);
  }
}
