/** Day 17 `Vector`: a pair of integers added and subtracted component-wise, with
    the two quarter turns the script defines. Grid coordinates are vectors whose `x`
    is the row and whose `y` is the column. */
module Vectors {

  datatype Vec = Vec(x: int, y: int)

  function Add(a: Vec, b: Vec): (r: Vec)
    ensures Sub(r, b) == a
  {
    Vec(a.x + b.x, a.y + b.y)
  }

  function Sub(a: Vec, b: Vec): Vec
  {
    Vec(a.x - b.x, a.y - b.y)
  }

  /** `Vector.zero()`. */
  const Zero: Vec := Vec(0, 0)

  /** One step along one axis. */
  predicate IsUnit(v: Vec)
  {
    v == Vec(1, 0) || v == Vec(-1, 0) || v == Vec(0, 1) || v == Vec(0, -1)
  }

  function Abs(n: int): int
  {
    if n < 0 then -n else n
  }

  /** Orientation of the turn from `a` to `b`. */
  function Cross(a: Vec, b: Vec): int
  {
    a.x * b.y - a.y * b.x
  }

  /** `rotated_right`: `(y * -|y|, x)`. */
  function RotatedRight(v: Vec): Vec
  {
    Vec(v.y * -Abs(v.y), v.x)
  }

  /** `rotated_left`: `(y, x * -|x|)`. */
  function RotatedLeft(v: Vec): Vec
  {
    Vec(v.y, v.x * -Abs(v.x))
  }

  /** On a unit vector `rotated_right` is the quarter turn with positive orientation,
      undone by `rotated_left`. */
  lemma RightTurn(v: Vec)
    requires IsUnit(v)
    ensures IsUnit(RotatedRight(v)) && Cross(v, RotatedRight(v)) == 1
    ensures RotatedLeft(RotatedRight(v)) == v
  {
  }

  /** On a unit vector `rotated_left` is the quarter turn with negative orientation,
      undone by `rotated_right`. */
  lemma LeftTurn(v: Vec)
    requires IsUnit(v)
    ensures IsUnit(RotatedLeft(v)) && Cross(v, RotatedLeft(v)) == -1
    ensures RotatedRight(RotatedLeft(v)) == v
  {
  }

  /** Four right turns bring a unit vector back. */
  lemma {:induction false} FourRightTurns(v: Vec)
    requires IsUnit(v)
    ensures RotatedRight(RotatedRight(RotatedRight(RotatedRight(v)))) == v
  {
    if v == Vec(1, 0) {
      assert RotatedRight(v) == Vec(0, 1);
      assert RotatedRight(Vec(0, 1)) == Vec(-1, 0);
      assert RotatedRight(Vec(-1, 0)) == Vec(0, -1);
      assert RotatedRight(Vec(0, -1)) == Vec(1, 0);
    } else if v == Vec(0, 1) {
      assert RotatedRight(v) == Vec(-1, 0);
      assert RotatedRight(Vec(-1, 0)) == Vec(0, -1);
      assert RotatedRight(Vec(0, -1)) == Vec(1, 0);
      assert RotatedRight(Vec(1, 0)) == Vec(0, 1);
    } else if v == Vec(-1, 0) {
      assert RotatedRight(v) == Vec(0, -1);
      assert RotatedRight(Vec(0, -1)) == Vec(1, 0);
      assert RotatedRight(Vec(1, 0)) == Vec(0, 1);
      assert RotatedRight(Vec(0, 1)) == Vec(-1, 0);
    } else {
      assert v == Vec(0, -1);
      assert RotatedRight(v) == Vec(1, 0);
      assert RotatedRight(Vec(1, 0)) == Vec(0, 1);
      assert RotatedRight(Vec(0, 1)) == Vec(-1, 0);
      assert RotatedRight(Vec(-1, 0)) == Vec(0, -1);
    }
  }

  /** On a longer vector the squared component shows: `rotated_right` is no rotation. */
  lemma LongVectorIsStretched()
    ensures RotatedRight(Vec(0, 2)) == Vec(-4, 0)
  {
  }
}
