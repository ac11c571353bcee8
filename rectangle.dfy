/**
 * The value semantics of an SPRectangle: an axis-aligned rectangle given by its
 * top-left corner (x, y) and its width and height. Coordinates are reals; the
 * y axis points down, so `top` is the smaller y and `bottom` the larger one.
 * Width and height may be negative (an un-normalized rectangle).
 */
module Rectangles {

  import opened Wrappers

  /** An SPPoint: a pair of coordinates. */
  datatype Point = Point(x: real, y: real)

  /** The four fields `_x`, `_y`, `_width`, `_height` of an SPRectangle. */
  datatype Rect = Rect(x: real, y: real, width: real, height: real)

  function Min(a: real, b: real): real { if a <= b then a else b }

  function Max(a: real, b: real): real { if a >= b then a else b }

  // ---------------------------------------------------------------------------
  // Derived properties
  // ---------------------------------------------------------------------------

  function Left(r: Rect): real { r.x }

  function Top(r: Rect): real { r.y }

  function Right(r: Rect): real { r.x + r.width }

  function Bottom(r: Rect): real { r.y + r.height }

  function TopLeft(r: Rect): Point { Point(r.x, r.y) }

  function BottomRight(r: Rect): Point { Point(Right(r), Bottom(r)) }

  function Size(r: Rect): Point { Point(r.width, r.height) }

  function Center(r: Rect): Point { Point(r.x + r.width / 2.0, r.y + r.height / 2.0) }

  /** The rectangle whose four edges are the given coordinates. */
  function FromEdges(left: real, top: real, right: real, bottom: real): (r: Rect)
    ensures Left(r) == left && Top(r) == top && Right(r) == right && Bottom(r) == bottom
  {
    Rect(left, top, right - left, bottom - top)
  }

  /** The edges determine the fields: reading the four edges and building a
      rectangle from them gives back the same rectangle, and the derived
      corners and size are those edges. */
  lemma EdgesDetermineRect(r: Rect)
    ensures FromEdges(Left(r), Top(r), Right(r), Bottom(r)) == r
    ensures Right(r) - Left(r) == r.width && Bottom(r) - Top(r) == r.height
    ensures TopLeft(r) == Point(Left(r), Top(r)) && BottomRight(r) == Point(Right(r), Bottom(r))
  {
  }

  /** `isEmpty`: the rectangle has no area. */
  predicate IsEmpty(r: Rect) { r.width <= 0.0 || r.height <= 0.0 }

  /** A point strictly inside the rectangle's edges. */
  predicate StrictlyInside(r: Rect, px: real, py: real)
  {
    r.x < px < Right(r) && r.y < py < Bottom(r)
  }

  /** A rectangle is empty exactly when no point lies strictly inside it. */
  lemma EmptyIffNoInterior(r: Rect)
    ensures IsEmpty(r) <==> forall px, py :: !StrictlyInside(r, px, py)
  {
    if !IsEmpty(r) {
      var c := Center(r);
      assert StrictlyInside(r, c.x, c.y);
    }
  }

  // ---------------------------------------------------------------------------
  // Predicates
  // ---------------------------------------------------------------------------

  /** `containsX:y:`: the point lies within the closed edges. */
  predicate ContainsXY(r: Rect, px: real, py: real)
  {
    r.x <= px <= Right(r) && r.y <= py <= Bottom(r)
  }

  /** `containsPoint:`. */
  predicate ContainsPoint(r: Rect, p: Point) { ContainsXY(r, p.x, p.y) }

  /** `containsRectangle:`: false for an absent rectangle, otherwise every edge
      of `other` lies within `r`'s edges. */
  predicate ContainsRectangle(r: Rect, other: Option<Rect>)
  {
    other.Some? &&
    Left(r) <= Left(other.value) && Right(other.value) <= Right(r) &&
    Top(r) <= Top(other.value) && Bottom(other.value) <= Bottom(r)
  }

  /** `intersectsRectangle:`: false for an absent rectangle, otherwise the two
      closed rectangles overlap (touching edges count). */
  predicate Intersects(r: Rect, other: Option<Rect>)
  {
    other.Some? &&
    Max(Left(r), Left(other.value)) <= Min(Right(r), Right(other.value)) &&
    Max(Top(r), Top(other.value)) <= Min(Bottom(r), Bottom(other.value))
  }

  /** A rectangle with a negative width or height contains no point: callers
      normalize first. */
  lemma UnnormalizedContainsNothing(r: Rect, px: real, py: real)
    requires r.width < 0.0 || r.height < 0.0
    ensures !ContainsXY(r, px, py)
  {
  }

  /** Point containment is containment of the degenerate rectangle at that point. */
  lemma PointIsDegenerateRectangle(r: Rect, p: Point)
    ensures ContainsPoint(r, p) <==> ContainsRectangle(r, Some(Rect(p.x, p.y, 0.0, 0.0)))
  {
  }

  /** For an `other` with non-negative size, `containsRectangle:` is region
      inclusion: every point of `other` is a point of `r`. */
  lemma ContainsRectangleIsInclusion(r: Rect, other: Rect)
    requires other.width >= 0.0 && other.height >= 0.0
    ensures ContainsRectangle(r, Some(other)) <==>
            forall px, py :: ContainsXY(other, px, py) ==> ContainsXY(r, px, py)
  {
    if forall px, py :: ContainsXY(other, px, py) ==> ContainsXY(r, px, py) {
      assert ContainsXY(other, other.x, other.y);
      assert ContainsXY(other, Right(other), Bottom(other));
    }
  }

  /** `intersectsRectangle:` holds exactly when the two rectangles share a point. */
  lemma IntersectsIffCommonPoint(r: Rect, other: Rect)
    ensures Intersects(r, Some(other)) <==>
            exists px, py :: ContainsXY(r, px, py) && ContainsXY(other, px, py)
  {
    if Intersects(r, Some(other)) {
      var px := Max(Left(r), Left(other));
      var py := Max(Top(r), Top(other));
      assert ContainsXY(r, px, py) && ContainsXY(other, px, py);
    }
  }

  /** A rectangle of non-negative size intersects every rectangle that
      contains it. */
  lemma ContainedIntersects(r: Rect, o: Rect)
    requires r.width >= 0.0 && r.height >= 0.0
    requires ContainsRectangle(o, Some(r))
    ensures Intersects(r, Some(o))
  {
  }

  /** Intersection is a symmetric relation. */
  lemma IntersectsSymmetric(a: Rect, b: Rect)
    ensures Intersects(a, Some(b)) == Intersects(b, Some(a))
  {
  }

  // ---------------------------------------------------------------------------
  // Intersection and union
  // ---------------------------------------------------------------------------

  /** `intersectionWithRectangle:`. When the rectangles intersect, the overlap;
      otherwise a rectangle of size zero at the larger left and top edges
      (at `r`'s own origin when the argument is absent). */
  function Intersection(r: Rect, other: Option<Rect>): (i: Rect)
    ensures !Intersects(r, other) ==> i.width == 0.0 && i.height == 0.0 && IsEmpty(i)
    ensures other.None? ==> i == Rect(r.x, r.y, 0.0, 0.0)
    ensures other.Some? && !Intersects(r, other) ==>
              TopLeft(i) == Point(Max(Left(r), Left(other.value)), Max(Top(r), Top(other.value)))
    ensures Intersects(r, other) ==>
              ContainsRectangle(r, Some(i)) && ContainsRectangle(other.value, Some(i)) &&
              i.width >= 0.0 && i.height >= 0.0
  {
    match other
    case None => Rect(r.x, r.y, 0.0, 0.0)
    case Some(o) =>
      var left := Max(Left(r), Left(o));
      var top := Max(Top(r), Top(o));
      if Intersects(r, other) then
        FromEdges(left, top, Min(Right(r), Right(o)), Min(Bottom(r), Bottom(o)))
      else
        Rect(left, top, 0.0, 0.0)
  }

  /** A point lies in the intersection of two intersecting rectangles exactly
      when it lies in both; a point in both means they intersect. */
  lemma IntersectionIsCommonRegion(a: Rect, b: Rect, px: real, py: real)
    ensures ContainsXY(a, px, py) && ContainsXY(b, px, py) ==> Intersects(a, Some(b))
    ensures Intersects(a, Some(b)) ==>
              (ContainsXY(Intersection(a, Some(b)), px, py) <==>
               ContainsXY(a, px, py) && ContainsXY(b, px, py))
  {
  }

  /** The intersection is the largest rectangle inside both: any rectangle of
      non-negative size inside both operands shows that they intersect and lies
      inside their intersection. */
  lemma IntersectionIsGreatest(a: Rect, b: Rect, c: Rect)
    requires c.width >= 0.0 && c.height >= 0.0
    requires ContainsRectangle(a, Some(c)) && ContainsRectangle(b, Some(c))
    ensures Intersects(a, Some(b))
    ensures ContainsRectangle(Intersection(a, Some(b)), Some(c))
  {
  }

  /** The intersection, or the empty rectangle that stands for none, does not
      depend on the order of the operands. */
  lemma IntersectionCommutes(a: Rect, b: Rect)
    ensures Intersection(a, Some(b)) == Intersection(b, Some(a))
  {
  }

  /** `uniteWithRectangle:`: the bounding box of both rectangles, or a copy of
      `r` when the argument is absent. */
  function Union(r: Rect, other: Option<Rect>): (u: Rect)
    ensures other.None? ==> u == r
    ensures other.Some? ==> ContainsRectangle(u, Some(r)) && ContainsRectangle(u, other)
  {
    match other
    case None => r
    case Some(o) =>
      FromEdges(Min(Left(r), Left(o)), Min(Top(r), Top(o)),
                Max(Right(r), Right(o)), Max(Bottom(r), Bottom(o)))
  }

  /** The union is the smallest rectangle containing both operands. */
  lemma UnionIsLeast(a: Rect, b: Rect, c: Rect)
    requires ContainsRectangle(c, Some(a)) && ContainsRectangle(c, Some(b))
    ensures ContainsRectangle(c, Some(Union(a, Some(b))))
  {
  }

  /** The union does not depend on the order of the operands. */
  lemma UnionCommutes(a: Rect, b: Rect)
    ensures Union(a, Some(b)) == Union(b, Some(a))
  {
  }

  /** Every point of either operand is a point of the union. */
  lemma UnionCoversOperands(a: Rect, b: Rect, px: real, py: real)
    requires ContainsXY(a, px, py) || ContainsXY(b, px, py)
    ensures ContainsXY(Union(a, Some(b)), px, py)
  {
  }

  // ---------------------------------------------------------------------------
  // Bounds after a transformation
  // ---------------------------------------------------------------------------

  /** The four corners of a rectangle. */
  function Corners(r: Rect): (cs: seq<Point>)
    ensures |cs| == 4
  {
    [TopLeft(r), Point(Right(r), r.y), Point(r.x, Bottom(r)), BottomRight(r)]
  }

  /** `boundsAfterTransformation:`: the axis-aligned bounds of the four corners
      after each has been mapped by `transform` (the matrix's point map). */
  function BoundsAfterTransformation(r: Rect, transform: Point -> Point): (b: Rect)
    ensures forall i :: 0 <= i < 4 ==> ContainsPoint(b, transform(Corners(r)[i]))
    ensures b.width >= 0.0 && b.height >= 0.0
  {
    var cs := Corners(r);
    var p0, p1, p2, p3 := transform(cs[0]), transform(cs[1]), transform(cs[2]), transform(cs[3]);
    FromEdges(Min(Min(p0.x, p1.x), Min(p2.x, p3.x)), Min(Min(p0.y, p1.y), Min(p2.y, p3.y)),
              Max(Max(p0.x, p1.x), Max(p2.x, p3.x)), Max(Max(p0.y, p1.y), Max(p2.y, p3.y)))
  }

  /** The bounds are tight: any rectangle holding the four mapped corners
      contains them. */
  lemma BoundsAreLeast(r: Rect, transform: Point -> Point, c: Rect)
    requires forall i :: 0 <= i < 4 ==> ContainsPoint(c, transform(Corners(r)[i]))
    ensures ContainsRectangle(c, Some(BoundsAfterTransformation(r, transform)))
  {
  }

  /** Under the identity map, the bounds of any rectangle are its normalized form. */
  lemma BoundsUnderIdentityNormalize(r: Rect)
    ensures BoundsAfterTransformation(r, p => p) == Normalized(r)
  {
  }

  /** Under the identity map, the bounds of a rectangle of non-negative size
      are the rectangle itself. */
  lemma BoundsUnderIdentity(r: Rect)
    requires r.width >= 0.0 && r.height >= 0.0
    ensures BoundsAfterTransformation(r, p => p) == r
  {
  }

  // ---------------------------------------------------------------------------
  // Mutations, as functions of the old value
  // ---------------------------------------------------------------------------

  /** `inflateXBy:yBy:`: the center stays put, the rectangle grows by `dx` to
      the left and to the right and by `dy` to the top and to the bottom. */
  function Inflated(r: Rect, dx: real, dy: real): (i: Rect)
    ensures Center(i) == Center(r)
    ensures Left(i) == Left(r) - dx && Right(i) == Right(r) + dx
    ensures Top(i) == Top(r) - dy && Bottom(i) == Bottom(r) + dy
  {
    Rect(r.x - dx, r.y - dy, r.width + 2.0 * dx, r.height + 2.0 * dy)
  }

  /** Inflating by the opposite amounts undoes an inflation. */
  lemma InflateThenDeflate(r: Rect, dx: real, dy: real)
    ensures Inflated(Inflated(r, dx, dy), -dx, -dy) == r
  {
  }

  /** `scaleBy:`: the whole rectangle, position included, scaled about the
      coordinate origin. */
  function Scaled(r: Rect, s: real): (sc: Rect)
    ensures TopLeft(sc) == Point(Left(r) * s, Top(r) * s)
    ensures BottomRight(sc) == Point(Right(r) * s, Bottom(r) * s)
  {
    Rect(r.x * s, r.y * s, r.width * s, r.height * s)
  }

  /** Scaling by a positive factor maps the points of `r` exactly onto the
      points of the scaled rectangle. */
  lemma ScaledContains(r: Rect, s: real, px: real, py: real)
    requires s > 0.0
    ensures ContainsXY(Scaled(r, s), px * s, py * s) <==> ContainsXY(r, px, py)
  {
    MulMonotone(Left(r), px, s);
    MulMonotone(px, Right(r), s);
    MulMonotone(Top(r), py, s);
    MulMonotone(py, Bottom(r), s);
  }

  /** Multiplying by a positive factor preserves the order of two numbers. */
  lemma MulMonotone(a: real, b: real, s: real)
    requires s > 0.0
    ensures a <= b <==> a * s <= b * s
  {
    if a <= b {
      assert (b - a) * s >= 0.0;
    } else {
      assert (a - b) * s > 0.0;
    }
  }

  /** `scaleSizeBy:`: the top-left corner stays put, width and height are scaled. */
  function ScaledSize(r: Rect, s: real): (sc: Rect)
    ensures TopLeft(sc) == TopLeft(r)
    ensures Size(sc) == Point(r.width * s, r.height * s)
  {
    Rect(r.x, r.y, r.width * s, r.height * s)
  }

  /** Scaling the size by `s` and then by `1/s` restores the rectangle. */
  lemma ScaleSizeInverse(r: Rect, s: real)
    requires s != 0.0
    ensures ScaledSize(ScaledSize(r, s), 1.0 / s) == r
  {
  }

  /** The smallest and largest x and y a rectangle spans, whatever the signs
      of its width and height. */
  function MinX(r: Rect): real { Min(Left(r), Right(r)) }
  function MaxX(r: Rect): real { Max(Left(r), Right(r)) }
  function MinY(r: Rect): real { Min(Top(r), Bottom(r)) }
  function MaxY(r: Rect): real { Max(Top(r), Bottom(r)) }

  /** `normalize`: the same region with non-negative width and height; a
      rectangle that is already normalized is unchanged. */
  function Normalized(r: Rect): (n: Rect)
    ensures n.width >= 0.0 && n.height >= 0.0
    ensures MinX(n) == MinX(r) && MaxX(n) == MaxX(r)
    ensures MinY(n) == MinY(r) && MaxY(n) == MaxY(r)
    ensures r.width >= 0.0 && r.height >= 0.0 ==> n == r
  {
    var r1 := if r.width < 0.0 then Rect(r.x + r.width, r.y, -r.width, r.height) else r;
    if r1.height < 0.0 then Rect(r1.x, r1.y + r1.height, r1.width, -r1.height) else r1
  }

  /** Normalizing twice is normalizing once. */
  lemma NormalizeIdempotent(r: Rect)
    ensures Normalized(Normalized(r)) == Normalized(r)
  {
  }

  /** The normalized rectangle contains exactly the points between the
      smallest and largest coordinates the original spans. */
  lemma NormalizedRegion(r: Rect, px: real, py: real)
    ensures ContainsXY(Normalized(r), px, py) <==>
            MinX(r) <= px <= MaxX(r) && MinY(r) <= py <= MaxY(r)
  {
  }

  // ---------------------------------------------------------------------------
  // Assignable derived properties
  // ---------------------------------------------------------------------------

  /** Setting `left` moves the left edge; the right edge and the y extent stay. */
  function WithLeft(r: Rect, v: real): (s: Rect)
    ensures Left(s) == v && Right(s) == Right(r)
    ensures Top(s) == Top(r) && Bottom(s) == Bottom(r)
  {
    Rect(v, r.y, r.width + r.x - v, r.height)
  }

  /** Setting `top` moves the top edge; the bottom edge and the x extent stay. */
  function WithTop(r: Rect, v: real): (s: Rect)
    ensures Top(s) == v && Bottom(s) == Bottom(r)
    ensures Left(s) == Left(r) && Right(s) == Right(r)
  {
    Rect(r.x, v, r.width, r.height + r.y - v)
  }

  /** Setting `right` moves the right edge; every other edge stays. */
  function WithRight(r: Rect, v: real): (s: Rect)
    ensures Right(s) == v && Left(s) == Left(r)
    ensures Top(s) == Top(r) && Bottom(s) == Bottom(r)
  {
    Rect(r.x, r.y, v - r.x, r.height)
  }

  /** Setting `bottom` moves the bottom edge; every other edge stays. */
  function WithBottom(r: Rect, v: real): (s: Rect)
    ensures Bottom(s) == v && Top(s) == Top(r)
    ensures Left(s) == Left(r) && Right(s) == Right(r)
  {
    Rect(r.x, r.y, r.width, v - r.y)
  }

  /** Setting `topLeft` moves the rectangle: the size is kept. */
  function WithTopLeft(r: Rect, p: Point): (s: Rect)
    ensures TopLeft(s) == p && Size(s) == Size(r)
  {
    Rect(p.x, p.y, r.width, r.height)
  }

  /** Setting `bottomRight` moves that corner; the top-left corner stays. */
  function WithBottomRight(r: Rect, p: Point): (s: Rect)
    ensures BottomRight(s) == p && TopLeft(s) == TopLeft(r)
  {
    Rect(r.x, r.y, p.x - r.x, p.y - r.y)
  }

  /** Setting `size` resizes about the top-left corner. */
  function WithSize(r: Rect, p: Point): (s: Rect)
    ensures Size(s) == p && TopLeft(s) == TopLeft(r)
  {
    Rect(r.x, r.y, p.x, p.y)
  }

  /** `setEmpty`: width and height become zero, the position stays. */
  function Emptied(r: Rect): (e: Rect)
    ensures IsEmpty(e) && TopLeft(e) == TopLeft(r)
    ensures Size(e) == Point(0.0, 0.0)
  {
    Rect(r.x, r.y, 0.0, 0.0)
  }

  // ---------------------------------------------------------------------------
  // Worked cases
  // ---------------------------------------------------------------------------

  lemma ContainsExample()
    ensures ContainsXY(Rect(0.0, 0.0, 100.0, 50.0), 50.0, 25.0)
    ensures !ContainsXY(Rect(0.0, 0.0, 100.0, 50.0), 150.0, 25.0)
  {
  }

  lemma IntersectionExample()
    ensures Intersection(Rect(0.0, 0.0, 10.0, 10.0), Some(Rect(5.0, 5.0, 10.0, 10.0)))
            == Rect(5.0, 5.0, 5.0, 5.0)
  {
  }

  lemma UnionExample()
    ensures Union(Rect(0.0, 0.0, 10.0, 10.0), Some(Rect(20.0, 20.0, 10.0, 10.0)))
            == Rect(0.0, 0.0, 30.0, 30.0)
  {
  }

  lemma NormalizeExample()
    ensures Normalized(Rect(-5.0, -5.0, -10.0, -10.0)) == Rect(-15.0, -15.0, 10.0, 10.0)
  {
  }

  lemma InflateExample()
    ensures Inflated(Rect(10.0, 10.0, 20.0, 20.0), 5.0, 0.0) == Rect(5.0, 10.0, 30.0, 20.0)
  {
  }
}
