/** Real-valued 3-D points and the yaw-only anchor frame.

    Both applications build the same 3x3 matrix from an angle a (radians):
      rows (cos a, 0, -sin a), (0, 1, 0), (sin a, 0, cos a)
    and multiply a world offset by it when an object is stored relative to
    its anchor. `rotate_around_point` builds the same matrix for -a. Dafny
    has no trigonometry, so a yaw is carried as the pair (c, s) = (cos a, sin a)
    constrained to the unit circle. */
module Geometry {

  datatype Point = Point(x: real, y: real, z: real)

  const Zero := Point(0.0, 0.0, 0.0)

  function Add(p: Point, q: Point): Point {
    Point(p.x + q.x, p.y + q.y, p.z + q.z)
  }

  function Sub(p: Point, q: Point): Point {
    Point(p.x - q.x, p.y - q.y, p.z - q.z)
  }

  function Scale(k: real, p: Point): Point {
    Point(k * p.x, k * p.y, k * p.z)
  }

  /** Squared Euclidean distance. The original compares square roots of this
      quantity; over the reals the square root is monotone, so comparing the
      squares against a squared threshold decides the same questions. */
  function SqDist(p: Point, q: Point): (d: real)
    ensures d >= 0.0
    ensures p == q ==> d == 0.0
  {
    var dx := p.x - q.x;
    var dy := p.y - q.y;
    var dz := p.z - q.z;
    SquareNonNeg(dx);
    SquareNonNeg(dy);
    SquareNonNeg(dz);
    dx * dx + dz * dz + dy * dy
  }

  lemma SquareNonNeg(r: real)
    ensures r * r >= 0.0
  {
    if r < 0.0 {
      var m := -r;
      assert m * m > 0.0;
      assert r * r == m * m;
    }
  }

  /** (cos a, sin a) of a yaw angle a. */
  datatype Angle = Angle(c: real, s: real)

  /** Only points of the unit circle are yaws. */
  type Yaw = a: Angle | a.c * a.c + a.s * a.s == 1.0 witness Angle(1.0, 0.0)

  /** The yaw of the opposite angle: cos(-a) = cos a, sin(-a) = -sin a. */
  function Negate(a: Yaw): (r: Yaw)
    ensures r.c == a.c && r.s == -a.s
  {
    assert (-a.s) * (-a.s) == a.s * a.s;
    Angle(a.c, -a.s)
  }

  datatype Matrix = Matrix(r0: Point, r1: Point, r2: Point)

  /** The matrix both applications build from an angle. */
  function YawMatrix(a: Angle): Matrix {
    Matrix(Point(a.c, 0.0, -a.s), Point(0.0, 1.0, 0.0), Point(a.s, 0.0, a.c))
  }

  function Dot(r: Point, v: Point): real {
    v.x * r.x + v.y * r.y + v.z * r.z
  }

  /** Row-by-row product, written as the original writes it. */
  function Apply(m: Matrix, v: Point): Point {
    Point(Dot(m.r0, v), Dot(m.r1, v), Dot(m.r2, v))
  }

  function Transpose(m: Matrix): Matrix {
    Matrix(Point(m.r0.x, m.r1.x, m.r2.x),
           Point(m.r0.y, m.r1.y, m.r2.y),
           Point(m.r0.z, m.r1.z, m.r2.z))
  }

  /** World offset -> anchor-local offset, as done when a configuration is
      saved: the offset is multiplied by the matrix of the anchor's yaw. */
  function SaveOffset(a: Yaw, v: Point): (r: Point)
    ensures r.y == v.y
    ensures r.x == a.c * v.x - a.s * v.z && r.z == a.s * v.x + a.c * v.z
  {
    Apply(YawMatrix(a), v)
  }

  /** `rotate_around_point`: the same matrix built for the negated angle. */
  function RotateAroundPoint(a: Yaw, v: Point): (r: Point)
    ensures r.y == v.y
    ensures r == Apply(Transpose(YawMatrix(a)), v)
  {
    Apply(YawMatrix(Negate(a)), v)
  }

  /** Storing an offset and rotating it back with the same yaw returns it. */
  lemma {:induction false} RotateUndoesSave(a: Yaw, v: Point)
    ensures RotateAroundPoint(a, SaveOffset(a, v)) == v
  {
    var w := SaveOffset(a, v);
    var r := RotateAroundPoint(a, w);
    calc {
      r.x;
      a.c * w.x + a.s * w.z;
      a.c * (a.c * v.x - a.s * v.z) + a.s * (a.s * v.x + a.c * v.z);
      (a.c * a.c + a.s * a.s) * v.x;
      v.x;
    }
    calc {
      r.z;
      -a.s * w.x + a.c * w.z;
      -a.s * (a.c * v.x - a.s * v.z) + a.c * (a.s * v.x + a.c * v.z);
      (a.c * a.c + a.s * a.s) * v.z;
      v.z;
    }
  }

  /** And the other way round: the two matrices are inverse to each other. */
  lemma {:induction false} SaveUndoesRotate(a: Yaw, v: Point)
    ensures SaveOffset(a, RotateAroundPoint(a, v)) == v
  {
    var w := RotateAroundPoint(a, v);
    var r := SaveOffset(a, w);
    calc {
      r.x;
      a.c * w.x - a.s * w.z;
      a.c * (a.c * v.x + a.s * v.z) - a.s * (-a.s * v.x + a.c * v.z);
      (a.c * a.c + a.s * a.s) * v.x;
      v.x;
    }
    calc {
      r.z;
      a.s * w.x + a.c * w.z;
      a.s * (a.c * v.x + a.s * v.z) + a.c * (-a.s * v.x + a.c * v.z);
      (a.c * a.c + a.s * a.s) * v.z;
      v.z;
    }
  }

  function XZNorm(v: Point): real {
    v.x * v.x + v.z * v.z
  }

  /** `rotate_around_point` keeps the horizontal distance to the origin. */
  lemma {:induction false} RotatePreservesXZNorm(a: Yaw, v: Point)
    ensures XZNorm(RotateAroundPoint(a, v)) == XZNorm(v)
  {
    var r := RotateAroundPoint(a, v);
    calc {
      XZNorm(r);
      (a.c * v.x + a.s * v.z) * (a.c * v.x + a.s * v.z) + (-a.s * v.x + a.c * v.z) * (-a.s * v.x + a.c * v.z);
      (a.c * a.c + a.s * a.s) * (v.x * v.x) + (a.c * a.c + a.s * a.s) * (v.z * v.z);
      XZNorm(v);
    }
  }

  /** So does the save direction. */
  lemma {:induction false} SavePreservesXZNorm(a: Yaw, v: Point)
    ensures XZNorm(SaveOffset(a, v)) == XZNorm(v)
  {
    var r := SaveOffset(a, v);
    calc {
      XZNorm(r);
      (a.c * v.x - a.s * v.z) * (a.c * v.x - a.s * v.z) + (a.s * v.x + a.c * v.z) * (a.s * v.x + a.c * v.z);
      (a.c * a.c + a.s * a.s) * (v.x * v.x) + (a.c * a.c + a.s * a.s) * (v.z * v.z);
      XZNorm(v);
    }
  }

  /** An anchor-relative object position survives a save followed by a
      reconstruction from the anchor's pose: anchor + rotate(save(p - anchor)). */
  lemma {:induction false} AnchorRoundTrip(a: Yaw, anchor: Point, p: Point)
    ensures Add(anchor, RotateAroundPoint(a, SaveOffset(a, Sub(p, anchor)))) == p
  {
    RotateUndoesSave(a, Sub(p, anchor));
  }
}
