# SPRectangle, modelled in Dafny

A model of Sparrow's `SPRectangle`: an axis-aligned 2D rectangle described by its top-left
corner `(x, y)` and its `width` and `height`. The y axis points down, so `top` is `y` and `bottom`
is `y + height`. The model covers:

- the point and rectangle containment tests and the intersection test;
- the intersection and union rectangles;
- the bounds of a transformed rectangle;
- the in-place mutators and the assignable derived properties;
- the `fitInto:scaleMode:pixelPerfect:` viewport solver with its `SPScaleMode` enum.

Coordinates are Dafny `real`s, so the model is about the geometry and not float rounding.

Files:

- `wrappers.dfy` (module `Wrappers`): `Option`, which stands for a `nullable SPRectangle *` argument.
- `rectangle.dfy` (module `Rectangles`): the value `Rect(x, y, width, height)` and `Point`
  (an `SPPoint`). It holds the derived properties, the predicates, intersection, union and
  transformed bounds, and each mutator as a function from the old value to the new one. Lemmas
  relate each operation to an independent description: region inclusion, common points,
  least/greatest bounds, inverses, idempotence.
- `fit_into.dfy` (module `FitInto`): `ScaleMode`, snapping to whole-number multipliers and
  divisors, the solver, and its guarantees. The guarantees are centring, aspect ratio, ShowAll
  inside `into`, NoBorder covering `into`, and the optimality of the chosen factor.
- `sp_rectangle.dfy` (module `SPRectangles`): the class `SPRectangle` with the four mutable fields
  `x`, `y`, `width`, `height`. Each `void` method and property setter updates the fields in place
  and is proved against the matching function of `Rectangles` via `Value()`.

Decisions where the header states no rule:

- `intersectsRectangle:` treats both rectangles as closed, so touching edges intersect.
- `intersectionWithRectangle:` returns a rectangle of size zero when the rectangles do not
  intersect. Its origin is the larger left edge and the larger top edge. When the argument is
  `nil`, the origin is the receiver's own origin.
- The header documents only the getters of `left`, `top`, `right`, `bottom`. Each setter moves only
  its own edge and keeps the opposite edge where it was: setting `left` changes `x` and `width`
  together.
- Setting `topLeft` keeps the size. Setting `bottomRight` keeps the top-left corner.
- The pixel-perfect factors are `n` and `1/n` for whole `n >= 1`. The solver picks the closest
  such factor on the safe side of the raw factor: not above it for ShowAll (so the result still
  fits) and not below it for NoBorder (so the result still covers `into`).
- `isEqualToRectangle:` compares the four fields exactly.

The getters of the derived properties (`top`, `right`, `topLeft`, `size`, ...) are the functions
`Left`, `Right`, `TopLeft`, `Size`, ... of `Rectangles` applied to `SPRectangle.Value()`. The
queries (`containsX:y:`, `containsPoint:`, `containsRectangle:`, `intersectsRectangle:`,
`intersectionWithRectangle:`, `uniteWithRectangle:`, `boundsAfterTransformation:`, `fitInto:...`
and `isEmpty`) are likewise functions of `Rectangles` and `FitInto` over `Value()`. The
`SPScaleMode` enum is the datatype `FitInto.ScaleMode`; what each mode does is stated by
`FitInto.ScaleFactor`.

## Model

| member | source | states |
|---|---|---|
| Rectangles.Left | sparrow/src/Classes/SPRectangle.h:153-154 | the `left` getter: the x coordinate |
| Rectangles.Top | sparrow/src/Classes/SPRectangle.h:147-148 | the `top` getter: the y coordinate |
| Rectangles.Right | sparrow/src/Classes/SPRectangle.h:156-157 | the `right` getter: the sum of x and width |
| Rectangles.Bottom | sparrow/src/Classes/SPRectangle.h:150-151 | the `bottom` getter: the sum of y and height |
| Rectangles.TopLeft | sparrow/src/Classes/SPRectangle.h:159-160 | the `topLeft` getter: the point (x, y) |
| Rectangles.BottomRight | sparrow/src/Classes/SPRectangle.h:162-163 | the `bottomRight` getter: the point (right, bottom) |
| Rectangles.Size | sparrow/src/Classes/SPRectangle.h:165-166 | the `size` getter: the point (width, height) |
| Rectangles.IsEmpty | sparrow/src/Classes/SPRectangle.h:168-169 | `isEmpty`: width or height is zero or negative |
| Rectangles.ContainsXY | sparrow/src/Classes/SPRectangle.h:69-70 | `containsX:y:`: the point lies between the left and right edges and between the top and bottom edges, edges included |
| Rectangles.ContainsPoint | sparrow/src/Classes/SPRectangle.h:72-73 | `containsPoint:`: `containsX:y:` on the point's coordinates |
| Rectangles.ContainsRectangle | sparrow/src/Classes/SPRectangle.h:75-76 | `containsRectangle:`: false for `nil`; otherwise the argument's left and top edges are not before, and its right and bottom edges not past, the receiver's |
| Rectangles.Intersects | sparrow/src/Classes/SPRectangle.h:78-79 | `intersectsRectangle:`: false for `nil`; otherwise the closed rectangles overlap on both axes |
| Rectangles.FromEdges | sparrow/src/Classes/SPRectangle.h:147-157 | the rectangle built from four edge coordinates has exactly those `left`, `top`, `right`, `bottom` |
| Rectangles.EdgesDetermineRect | sparrow/src/Classes/SPRectangle.h:147-166 | `right - left == width` and `bottom - top == height`; the corners are made of the edges; the edges determine the rectangle |
| Rectangles.EmptyIffNoInterior | sparrow/src/Classes/SPRectangle.h:168-169 | `isEmpty` holds exactly when no point lies strictly inside the rectangle |
| Rectangles.UnnormalizedContainsNothing | sparrow/src/Classes/SPRectangle.h:69-70 | a rectangle with negative width or height contains no point |
| Rectangles.PointIsDegenerateRectangle | sparrow/src/Classes/SPRectangle.h:69-76 | `containsPoint:` agrees with `containsRectangle:` on the zero-size rectangle at that point |
| Rectangles.ContainsRectangleIsInclusion | sparrow/src/Classes/SPRectangle.h:75-76 | for an argument of non-negative size, `containsRectangle:` holds iff every point of the argument is a point of the receiver |
| Rectangles.IntersectsIffCommonPoint | sparrow/src/Classes/SPRectangle.h:78-79 | `intersectsRectangle:` holds iff the two rectangles share a point |
| Rectangles.ContainedIntersects | sparrow/src/Classes/SPRectangle.h:78-79 | a rectangle of non-negative size intersects every rectangle that contains it |
| Rectangles.IntersectsSymmetric | sparrow/src/Classes/SPRectangle.h:78-79 | the intersection test does not depend on operand order |
| Rectangles.Intersection | sparrow/src/Classes/SPRectangle.h:81-82 | without an intersection the result has zero size, is empty and sits at the larger left and top edges; with `nil` it is the zero-size rectangle at the receiver's origin; with an intersection the result has non-negative size and lies in both operands |
| Rectangles.IntersectionIsCommonRegion | sparrow/src/Classes/SPRectangle.h:81-82 | a point common to both operands means they intersect; then a point is in the intersection iff it is in both |
| Rectangles.IntersectionIsGreatest | sparrow/src/Classes/SPRectangle.h:81-82 | every rectangle of non-negative size inside both operands shows they intersect and lies inside the intersection |
| Rectangles.IntersectionCommutes | sparrow/src/Classes/SPRectangle.h:81-82 | the intersection does not depend on operand order |
| Rectangles.Union | sparrow/src/Classes/SPRectangle.h:84-86 | with `nil` the result is the receiver; otherwise the result contains both operands |
| Rectangles.UnionIsLeast | sparrow/src/Classes/SPRectangle.h:84-86 | any rectangle containing both operands contains their union |
| Rectangles.UnionCommutes | sparrow/src/Classes/SPRectangle.h:84-86 | the union does not depend on operand order |
| Rectangles.UnionCoversOperands | sparrow/src/Classes/SPRectangle.h:84-86 | every point of either operand is a point of the union |
| Rectangles.BoundsAfterTransformation | sparrow/src/Classes/SPRectangle.h:88-89 | the result contains all four mapped corners and has non-negative size |
| Rectangles.BoundsAreLeast | sparrow/src/Classes/SPRectangle.h:88-89 | any rectangle holding the four mapped corners contains the result |
| Rectangles.BoundsUnderIdentityNormalize | sparrow/src/Classes/SPRectangle.h:88-89 | under the identity map the bounds of any rectangle are its normalized form |
| Rectangles.BoundsUnderIdentity | sparrow/src/Classes/SPRectangle.h:88-89 | under the identity map a rectangle of non-negative size is its own bounds |
| Rectangles.Inflated | sparrow/src/Classes/SPRectangle.h:91-94 | the center is unchanged; left and right move out by `dx`, top and bottom by `dy` |
| Rectangles.InflateThenDeflate | sparrow/src/Classes/SPRectangle.h:91-94 | inflating by `(-dx, -dy)` undoes inflating by `(dx, dy)` |
| Rectangles.Scaled | sparrow/src/Classes/SPRectangle.h:106-107 | both corners, and so the position, are multiplied by the factor |
| Rectangles.ScaledContains | sparrow/src/Classes/SPRectangle.h:106-107 | for a positive factor, `p` is in the rectangle iff `p * s` is in the scaled one |
| Rectangles.ScaledSize | sparrow/src/Classes/SPRectangle.h:109-110 | the top-left corner is unchanged and the size is multiplied by the factor |
| Rectangles.ScaleSizeInverse | sparrow/src/Classes/SPRectangle.h:109-110 | scaling the size by `s` and then `1/s` restores the rectangle |
| Rectangles.Normalized | sparrow/src/Classes/SPRectangle.h:124-126 | width and height become non-negative; the smallest and largest x and y are unchanged; an already normalized rectangle is unchanged |
| Rectangles.NormalizeIdempotent | sparrow/src/Classes/SPRectangle.h:124-126 | normalizing twice equals normalizing once |
| Rectangles.NormalizedRegion | sparrow/src/Classes/SPRectangle.h:124-126 | the normalized rectangle contains exactly the points between the smallest and largest coordinates the original spans |
| Rectangles.WithLeft | sparrow/src/Classes/SPRectangle.h:153-154 | setting `left` moves the left edge to the value; right, top and bottom stay |
| Rectangles.WithTop | sparrow/src/Classes/SPRectangle.h:147-148 | setting `top` moves the top edge to the value; bottom, left and right stay |
| Rectangles.WithRight | sparrow/src/Classes/SPRectangle.h:156-157 | setting `right` moves the right edge to the value; left, top and bottom stay |
| Rectangles.WithBottom | sparrow/src/Classes/SPRectangle.h:150-151 | setting `bottom` moves the bottom edge to the value; top, left and right stay |
| Rectangles.WithTopLeft | sparrow/src/Classes/SPRectangle.h:159-160 | setting `topLeft` makes it the given point and keeps the size |
| Rectangles.WithBottomRight | sparrow/src/Classes/SPRectangle.h:162-163 | setting `bottomRight` makes it the given point and keeps the top-left corner |
| Rectangles.WithSize | sparrow/src/Classes/SPRectangle.h:165-166 | setting `size` makes it the given point and keeps the top-left corner |
| Rectangles.Emptied | sparrow/src/Classes/SPRectangle.h:115-116 | after `setEmpty` the size is zero, the position is unchanged and `isEmpty` holds |
| Rectangles.ContainsExample | sparrow/src/Classes/SPRectangle.h:69-70 | (50, 25) is inside the rectangle (0, 0, 100, 50) and (150, 25) is not |
| Rectangles.IntersectionExample | sparrow/src/Classes/SPRectangle.h:81-82 | (0, 0, 10, 10) and (5, 5, 10, 10) intersect in (5, 5, 5, 5) |
| Rectangles.UnionExample | sparrow/src/Classes/SPRectangle.h:84-86 | (0, 0, 10, 10) united with (20, 20, 10, 10) gives (0, 0, 30, 30) |
| Rectangles.NormalizeExample | sparrow/src/Classes/SPRectangle.h:124-126 | (-5, -5, -10, -10) normalizes to (-15, -15, 10, 10) |
| Rectangles.InflateExample | sparrow/src/Classes/SPRectangle.h:91-94 | (10, 10, 20, 20) inflated by (5, 0) is (5, 10, 30, 20) |
| FitInto.SnapDown | sparrow/src/Classes/SPRectangle.h:99-102 | the result is a whole-number multiplier or divisor not above the raw factor |
| FitInto.SnapDownIsGreatest | sparrow/src/Classes/SPRectangle.h:99-102 | no multiplier or divisor lies between `SnapDown(f)` and `f` |
| FitInto.SnapUp | sparrow/src/Classes/SPRectangle.h:99-102 | the result is a whole-number multiplier or divisor not below the raw factor |
| FitInto.SnapUpIsLeast | sparrow/src/Classes/SPRectangle.h:99-102 | no multiplier or divisor lies between `f` and `SnapUp(f)` |
| FitInto.ScaleFactor | sparrow/src/Classes/SPRectangle.h:20-35 | None uses factor 1; NoBorder uses at least, and ShowAll at most, both size ratios (exactly the larger or the smaller one without snapping); pixel-perfect factors are multipliers or divisors |
| FitInto.Fit | sparrow/src/Classes/SPRectangle.h:96-104 | the result keeps the receiver's aspect ratio and is centered in `into`; its size is the receiver's times the factor; None keeps the size; pixel-perfect sizes use a whole-number multiplier or divisor |
| FitInto.ShowAllFitsInside | sparrow/src/Classes/SPRectangle.h:31-34 | with ShowAll the result lies inside `into`, with or without snapping |
| FitInto.ShowAllFactorIsLargest | sparrow/src/Classes/SPRectangle.h:31-34 | every factor at which the receiver fits inside `into` (every pixel-perfect one, when snapping) is at most the chosen factor |
| FitInto.NoBorderCovers | sparrow/src/Classes/SPRectangle.h:27-29 | with NoBorder the result covers all of `into`, with or without snapping |
| FitInto.NoBorderFactorIsSmallest | sparrow/src/Classes/SPRectangle.h:27-29 | every factor at which the receiver covers `into` (every pixel-perfect one, when snapping) is at least the chosen factor |
| FitInto.NoBorderZeroWidthExample | sparrow/src/Classes/SPRectangle.h:27-29 | with snapping, NoBorder accepts a 0 x 100 target for a 10 x 10 rectangle and picks the factor 10 |
| FitInto.ShowAllExample | sparrow/src/Classes/SPRectangle.h:96-104 | a 100 x 100 rectangle shown in full in (0, 0, 50, 200) becomes (0, 75, 50, 50) |
| SPRectangles.SPRectangle.constructor | sparrow/src/Classes/SPRectangle.h:53-57 | the new rectangle has the four given fields |
| SPRectangles.SPRectangle.Zero | sparrow/src/Classes/SPRectangle.h:59-60 | the new rectangle has every field zero and is empty |
| SPRectangles.SPRectangle.IsEqualTo | sparrow/src/Classes/SPRectangle.h:121-122 | true iff both objects describe the same rectangle |
| SPRectangles.SPRectangle.InflateBy | sparrow/src/Classes/SPRectangle.h:91-94 | the new value is `Inflated` of the old one, with the same center |
| SPRectangles.SPRectangle.ScaleBy | sparrow/src/Classes/SPRectangle.h:106-107 | the new value is `Scaled` of the old one |
| SPRectangles.SPRectangle.ScaleSizeBy | sparrow/src/Classes/SPRectangle.h:109-110 | the new value is `ScaledSize` of the old one; `x` and `y` are unchanged |
| SPRectangles.SPRectangle.SetTo | sparrow/src/Classes/SPRectangle.h:112-113 | the four fields become the given values |
| SPRectangles.SPRectangle.SetEmpty | sparrow/src/Classes/SPRectangle.h:115-116 | width and height become zero, `x` and `y` are unchanged, and the rectangle is empty |
| SPRectangles.SPRectangle.CopyFrom | sparrow/src/Classes/SPRectangle.h:118-119 | the fields become the argument's old fields, and `IsEqualTo` the argument holds |
| SPRectangles.SPRectangle.Normalize | sparrow/src/Classes/SPRectangle.h:124-126 | the new value is `Normalized` of the old one, with non-negative width and height |
| SPRectangles.SPRectangle.SetLeft | sparrow/src/Classes/SPRectangle.h:153-154 | the new value is `WithLeft` of the old one |
| SPRectangles.SPRectangle.SetTop | sparrow/src/Classes/SPRectangle.h:147-148 | the new value is `WithTop` of the old one |
| SPRectangles.SPRectangle.SetRight | sparrow/src/Classes/SPRectangle.h:156-157 | the new value is `WithRight` of the old one |
| SPRectangles.SPRectangle.SetBottom | sparrow/src/Classes/SPRectangle.h:150-151 | the new value is `WithBottom` of the old one |
| SPRectangles.SPRectangle.SetTopLeft | sparrow/src/Classes/SPRectangle.h:159-160 | the new value is `WithTopLeft` of the old one |
| SPRectangles.SPRectangle.SetBottomRight | sparrow/src/Classes/SPRectangle.h:162-163 | the new value is `WithBottomRight` of the old one |
| SPRectangles.SPRectangle.SetSize | sparrow/src/Classes/SPRectangle.h:165-166 | the new value is `WithSize` of the old one |

## Left out

- Floating-point arithmetic. Fields are `real`, so there is no rounding, infinity or NaN.
- Object pooling through `SPPoolObject`, and `NSCopying`. These are allocation and runtime details.
- `rectangleWithCGRect:` and `convertToCGRect`. They are conversions to a platform struct.
- The internals of `SPMatrix`. `boundsAfterTransformation:` takes the matrix's point map as a
  function `Point -> Point`, so properties that depend on the map being affine are not stated.
- FitInto.Fit and FitInto.ScaleFactor: require `CanFit`. For a scaling mode the receiver's width and height must be
  non-zero, because the float code would divide by zero there. With `pixelPerfect`, the ratio that
  gets snapped must be positive: the smaller one for ShowAll, the larger one for NoBorder. Only
  positive factors can be snapped to a multiplier or divisor.
- FitInto.ShowAllFitsInside and FitInto.NoBorderCovers: stated for receivers of positive width and
  height only. With a negative size, scaling flips the inequalities and neither guarantee holds.
- SPRectangles.SPRectangle.IsEqualTo: exact equality, with no tolerance for rounding, because the
  fields are exact reals.
- Rectangles.Intersects: compares the raw fields, so a rectangle with negative width or height
  holds no point. Such a rectangle intersects nothing, not even a rectangle that contains it, and
  `IsEmpty` holds of it. The doc of `normalize` (lines 124-125) reads it instead as describing a
  region. Callers normalize first; for rectangles of non-negative size, containment implies
  intersection (`Rectangles.ContainedIntersects`).
- Rectangles.ContainsRectangle and Rectangles.Union: compare raw edges, each on one side only (the
  argument's left edge against the receiver's left edge, and so on). For an operand with negative
  width or height they therefore follow neither its corners nor its normalized region: (15, 0, -10, 5)
  counts as inside (0, 0, 10, 10), and the union of (0, 0, 1, 1) with (15, 0, -10, 1) stops at
  x = 5. For operands of non-negative size, containment is region inclusion
  (`Rectangles.ContainsRectangleIsInclusion`).
