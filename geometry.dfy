/**
 * Planar vectors, and the foreign numeric routines the system relies on,
 * passed in as parameters: the Euclidean distance (`scipy`), and cosine and
 * sine of an angle given in degrees (`math.cos(math.radians(a))`).
 */
module Geometry {

  /** A position `[x, y]` or a velocity `[vx, vy]`. */
  datatype Vec = Vec(x: real, y: real)

  /** What the model requires of the distance routine: it is never negative. */
  ghost predicate IsDistance(dist: (Vec, Vec) -> real)
  {
    forall p, q :: dist(p, q) >= 0.0
  }

  /** `numpy.fabs`. */
  function Abs(r: real): (a: real)
    ensures a >= 0.0
    ensures a == r || a == -r
  {
    if r < 0.0 then -r else r
  }

  /** Cosine and sine of an angle in degrees. */
  datatype Trig = Trig(cosDeg: real -> real, sinDeg: real -> real)

  /** Counter-clockwise rotation of `v` by the angle whose cosine is `c` and sine is `s`. */
  function Rotate(c: real, s: real, v: Vec): Vec
  {
    Vec(v.x * c - v.y * s, v.x * s + v.y * c)
  }

  /** Rotating back by the opposite angle restores the vector. */
  lemma RotateBack(c: real, s: real, v: Vec)
    requires c * c + s * s == 1.0
    ensures Rotate(c, -s, Rotate(c, s, v)) == v
  {
    var w := Rotate(c, s, v);
    calc {
      w.x * c - w.y * (-s);
      (v.x * c - v.y * s) * c + (v.x * s + v.y * c) * s;
      v.x * (c * c + s * s);
      v.x;
    }
    calc {
      w.x * (-s) + w.y * c;
      -(v.x * c - v.y * s) * s + (v.x * s + v.y * c) * c;
      v.y * (c * c + s * s);
      v.y;
    }
  }
}
