/**
 * SmartImage: one sprite frame and the tight rectangle around its opaque
 * pixels, computed once when the frame is loaded.
 */
module Sprites {
  import opened Geometry

  /** SColor::getAlpha of a pixel, 0 (transparent) to 255 (opaque). */
  type Alpha = a: int | 0 <= a < 256

  const Transparent: Alpha := 0

  /**
   * A loaded frame.  The texture handle belongs to the renderer and is not
   * modelled; what the game logic reads is the collision rectangle.
   */
  datatype SmartImage = SmartImage(collisionRect: Rect)

  /** Pixel (x, y) lies inside the image and is not fully transparent. */
  ghost predicate Opaque(alpha: array2<Alpha>, x: int, y: int)
    reads alpha
  {
    0 <= x < alpha.Length0 && 0 <= y < alpha.Length1 && alpha[x, y] != Transparent
  }

  /**
   * SmartImage::calculate_collision_rect.  `alpha[x, y]` is the alpha of the
   * pixel in column x and row y; Length0 is the image's width and Length1 its
   * height.  The result is Rect(minX, minY, maxX, maxY).
   */
  method CalculateCollisionRect(alpha: array2<Alpha>) returns (r: Rect)
    // every opaque pixel lies inside the rectangle
    ensures forall x, y :: Opaque(alpha, x, y) ==> r.left <= x <= r.right && r.top <= y <= r.bottom
    // with an opaque pixel, the rectangle is well formed, inside the image, and each edge touches one
    ensures (exists x, y :: Opaque(alpha, x, y)) ==>
      && 0 <= r.left <= r.right < alpha.Length0
      && 0 <= r.top <= r.bottom < alpha.Length1
      && (exists y :: Opaque(alpha, r.left, y))
      && (exists y :: Opaque(alpha, r.right, y))
      && (exists x :: Opaque(alpha, x, r.top))
      && (exists x :: Opaque(alpha, x, r.bottom))
    // a fully transparent image yields the degenerate (Width, Height, 0, 0)
    ensures (forall x, y :: !Opaque(alpha, x, y)) ==> r == Rect(alpha.Length0, alpha.Length1, 0, 0)
  {
    var width, height := alpha.Length0, alpha.Length1;
    var minX, minY, maxX, maxY := width, height, 0, 0;
    // `seen` records whether an opaque pixel has been met; the four witnesses
    // are opaque pixels lying on the four edges found so far
    ghost var seen := false;
    ghost var yOfMinX, yOfMaxX, xOfMinY, xOfMaxY := 0, 0, 0, 0;
    var x := 0;
    while x < width
      invariant 0 <= x <= width
      invariant forall i, j :: Opaque(alpha, i, j) && i < x ==> minX <= i <= maxX && minY <= j <= maxY
      invariant !seen ==> minX == width && minY == height && maxX == 0 && maxY == 0
      invariant seen ==> Opaque(alpha, minX, yOfMinX) && Opaque(alpha, maxX, yOfMaxX)
      invariant seen ==> Opaque(alpha, xOfMinY, minY) && Opaque(alpha, xOfMaxY, maxY)
    {
      var y := 0;
      while y < height
        invariant 0 <= y <= height
        invariant forall i, j :: Opaque(alpha, i, j) && (i < x || (i == x && j < y)) ==>
          minX <= i <= maxX && minY <= j <= maxY
        invariant !seen ==> minX == width && minY == height && maxX == 0 && maxY == 0
        invariant seen ==> Opaque(alpha, minX, yOfMinX) && Opaque(alpha, maxX, yOfMaxX)
        invariant seen ==> Opaque(alpha, xOfMinY, minY) && Opaque(alpha, xOfMaxY, maxY)
      {
        if alpha[x, y] != Transparent {
          if x < minX {
            minX := x;
          }
          if x > maxX {
            maxX := x;
          }
          if y < minY {
            minY := y;
          }
          if y > maxY {
            maxY := y;
          }
          // (x, y) is opaque, so it witnesses every edge it now lies on
          if x == minX { yOfMinX := y; }
          if x == maxX { yOfMaxX := y; }
          if y == minY { xOfMinY := x; }
          if y == maxY { xOfMaxY := x; }
          seen := true;
        }
        y := y + 1;
      }
      x := x + 1;
    }
    r := Rect(minX, minY, maxX, maxY);
  }
}
