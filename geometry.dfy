/**
 * The small part of Irrlicht's geometry that the game relies on: integer
 * rectangles (core::recti), float rectangles (core::rectf) and vectors
 * (core::vector2df).  The f32 components are modelled as exact reals: every
 * position, size and velocity the game uses is a whole number.
 */
module Geometry {

  /** core::recti, given by its upper-left and lower-right corners. */
  datatype Rect = Rect(left: int, top: int, right: int, bottom: int)

  /** core::vector2df */
  datatype Vec = Vec(x: real, y: real)

  const Zero := Vec(0.0, 0.0)

  /** core::rectf, given by its upper-left and lower-right corners. */
  datatype RectF = RectF(left: real, top: real, right: real, bottom: real)

  function Width(r: RectF): real { r.right - r.left }

  function Height(r: RectF): real { r.bottom - r.top }

  /** rectf::getCenter */
  function Center(r: RectF): Vec
  {
    Vec((r.left + r.right) / 2.0, (r.top + r.bottom) / 2.0)
  }

  /** `rect += v`: both corners move by v. */
  function Translated(r: RectF, v: Vec): (t: RectF)
    ensures Width(t) == Width(r) && Height(t) == Height(r)
    ensures Center(t) == Vec(Center(r).x + v.x, Center(r).y + v.y)
  {
    RectF(r.left + v.x, r.top + v.y, r.right + v.x, r.bottom + v.y)
  }

  /** `rect -= v`, which undoes `rect += v`. */
  function TranslatedBack(r: RectF, v: Vec): (t: RectF)
    ensures Width(t) == Width(r) && Height(t) == Height(r)
    ensures Translated(t, v) == r
  {
    RectF(r.left - v.x, r.top - v.y, r.right - v.x, r.bottom - v.y)
  }

  /** Moving back by v after moving by v returns the rectangle it started from. */
  lemma TranslateRoundTrip(r: RectF, v: Vec)
    ensures TranslatedBack(Translated(r, v), v) == r
  {
  }

  /** The vector v taken k times. */
  function Scaled(v: Vec, k: int): Vec
  {
    Vec(k as real * v.x, k as real * v.y)
  }

  /** The rectangle after k undo moves `rect -= v`. */
  function Reverted(r: RectF, v: Vec, k: nat): (t: RectF)
    ensures Width(t) == Width(r) && Height(t) == Height(r)
  {
    if k == 0 then r else TranslatedBack(Reverted(r, v, k - 1), v)
  }

  /** Undo moves of a still actor leave it where it is. */
  lemma {:induction false} RevertedStill(r: RectF, k: nat)
    ensures Reverted(r, Zero, k) == r
  {
    if k > 0 {
      RevertedStill(r, k - 1);
    }
  }

  /** Taking v one time fewer subtracts v. */
  lemma ScaledStep(v: Vec, k: int)
    ensures Scaled(v, k - 1) == Vec(Scaled(v, k).x - v.x, Scaled(v, k).y - v.y)
  {
    assert (k - 1) as real == k as real - 1.0;
  }

  /**
   * A move by v followed by k undo moves is a move by (1 - k) times v: one
   * undo cancels the move, and each further one moves the rectangle back
   * past where it started.
   */
  lemma {:induction false} RevertedMove(r: RectF, v: Vec, k: nat)
    ensures Reverted(Translated(r, v), v, k) == Translated(r, Scaled(v, 1 - k))
  {
    if k > 0 {
      RevertedMove(r, v, k - 1);
      ScaledStep(v, 1 - (k - 1));
    }
  }

  /**
   * The rectangle GameObject's constructor builds: the corners are the
   * position minus and plus half the size.
   */
  function CenteredRect(position: Vec, width: real, height: real): (r: RectF)
    ensures Center(r) == position
    ensures Width(r) == width && Height(r) == height
  {
    var delta := Vec(width / 2.0, height / 2.0);
    RectF(position.x - delta.x, position.y - delta.y, position.x + delta.x, position.y + delta.y)
  }

  /**
   * GameObject::set_position: the rectangle is translated by the difference
   * between the new position and its current centre.
   */
  function MovedTo(r: RectF, position: Vec): (t: RectF)
    ensures Center(t) == position
    ensures Width(t) == Width(r) && Height(t) == Height(r)
  {
    var c := Center(r);
    Translated(r, Vec(position.x - c.x, position.y - c.y))
  }

  /** `int round(float)`: floor(value + 0.5), the nearest integer with halves rounded up. */
  function Round(value: real): (n: int)
    ensures value - 0.5 < n as real <= value + 0.5
  {
    (value + 0.5).Floor
  }

  /** Rounding a whole number gives that number back. */
  lemma RoundWhole(n: int)
    ensures Round(n as real) == n
  {
  }

  /** recti + vector2di: both corners move by (dx, dy). */
  function Offset(r: Rect, dx: int, dy: int): Rect
  {
    Rect(r.left + dx, r.top + dy, r.right + dx, r.bottom + dy)
  }

  /**
   * recti::isRectCollided: the two rectangles overlap by a positive amount
   * on both axes (strict comparisons, so rectangles that only touch do not
   * collide).
   */
  predicate Collided(a: Rect, b: Rect)
  {
    a.bottom > b.top && a.top < b.bottom && a.right > b.left && a.left < b.right
  }

  /** Collision is symmetric, so each of two colliding actors sees the other. */
  lemma CollidedSymmetric(a: Rect, b: Rect)
    ensures Collided(a, b) <==> Collided(b, a)
  {
  }

  /**
   * The test does not check that a rectangle is well formed: the inverted
   * rectangle a fully transparent w x h sprite yields still collides with
   * exactly the rectangles that reach past it on all four sides.
   */
  lemma InvertedRectCanCollide(w: nat, h: nat, b: Rect)
    ensures Collided(Rect(w, h, 0, 0), b) <==> b.left < 0 && b.top < 0 && b.right > w && b.bottom > h
  {
  }
}
