/**
 * The SPRectangle object: four mutable fields, updated in place by its
 * `void` methods and by the setters of its derived properties. Each method is
 * specified by the function of `Rectangles` that gives the new value from the
 * old one; the queries are the
 * functions of `Rectangles` applied to `Value()`.
 */
module SPRectangles {

  import opened Rectangles

  class SPRectangle {
    var x: real
    var y: real
    var width: real
    var height: real

    /** The rectangle this object currently describes. */
    function Value(): Rect
      reads this
    {
      Rect(x, y, width, height)
    }

    /** `initWithX:y:width:height:`, the designated initializer. */
    constructor (x: real, y: real, width: real, height: real)
      ensures Value() == Rect(x, y, width, height)
    {
      this.x, this.y, this.width, this.height := x, y, width, height;
    }

    /** `rectangle`: the rectangle with every field zero. */
    constructor Zero()
      ensures Value() == Rect(0.0, 0.0, 0.0, 0.0) && IsEmpty(Value())
    {
      x, y, width, height := 0.0, 0.0, 0.0, 0.0;
    }

    /** `isEqualToRectangle:`: exact equality of the four fields. */
    predicate IsEqualTo(other: SPRectangle): (equal: bool)
      reads this, other
      ensures equal <==> Value() == other.Value()
    {
      x == other.x && y == other.y && width == other.width && height == other.height
    }

    /** `inflateXBy:yBy:`. */
    method InflateBy(dx: real, dy: real)
      modifies this
      ensures Value() == Inflated(old(Value()), dx, dy)
      ensures Center(Value()) == Center(old(Value()))
    {
      x := x - dx;
      width := width + 2.0 * dx;
      y := y - dy;
      height := height + 2.0 * dy;
    }

    /** `scaleBy:`. */
    method ScaleBy(scale: real)
      modifies this
      ensures Value() == Scaled(old(Value()), scale)
    {
      x := x * scale;
      y := y * scale;
      width := width * scale;
      height := height * scale;
    }

    /** `scaleSizeBy:`. */
    method ScaleSizeBy(scale: real)
      modifies this
      ensures Value() == ScaledSize(old(Value()), scale)
      ensures x == old(x) && y == old(y)
    {
      width := width * scale;
      height := height * scale;
    }

    /** `setX:y:width:height:`. */
    method SetTo(x: real, y: real, width: real, height: real)
      modifies this
      ensures Value() == Rect(x, y, width, height)
    {
      this.x, this.y, this.width, this.height := x, y, width, height;
    }

    /** `setEmpty`. */
    method SetEmpty()
      modifies this
      ensures Value() == Emptied(old(Value()))
      ensures x == old(x) && y == old(y) && IsEmpty(Value())
    {
      width := 0.0;
      height := 0.0;
    }

    /** `copyFromRectangle:`; `rectangle` may be this object itself. */
    method CopyFrom(rectangle: SPRectangle)
      modifies this
      ensures Value() == old(rectangle.Value())
      ensures IsEqualTo(rectangle)
    {
      x, y, width, height := rectangle.x, rectangle.y, rectangle.width, rectangle.height;
    }

    /** `normalize`. */
    method Normalize()
      modifies this
      ensures Value() == Normalized(old(Value()))
      ensures width >= 0.0 && height >= 0.0
    {
      if width < 0.0 {
        x := x + width;
        width := -width;
      }
      if height < 0.0 {
        y := y + height;
        height := -height;
      }
    }

    /** Setter of `left`. */
    method SetLeft(value: real)
      modifies this
      ensures Value() == WithLeft(old(Value()), value)
    {
      width := width + x - value;
      x := value;
    }

    /** Setter of `top`. */
    method SetTop(value: real)
      modifies this
      ensures Value() == WithTop(old(Value()), value)
    {
      height := height + y - value;
      y := value;
    }

    /** Setter of `right`. */
    method SetRight(value: real)
      modifies this
      ensures Value() == WithRight(old(Value()), value)
    {
      width := value - x;
    }

    /** Setter of `bottom`. */
    method SetBottom(value: real)
      modifies this
      ensures Value() == WithBottom(old(Value()), value)
    {
      height := value - y;
    }

    /** Setter of `topLeft`. */
    method SetTopLeft(point: Point)
      modifies this
      ensures Value() == WithTopLeft(old(Value()), point)
    {
      x := point.x;
      y := point.y;
    }

    /** Setter of `bottomRight`. */
    method SetBottomRight(point: Point)
      modifies this
      ensures Value() == WithBottomRight(old(Value()), point)
    {
      width := point.x - x;
      height := point.y - y;
    }

    /** Setter of `size`. */
    method SetSize(point: Point)
      modifies this
      ensures Value() == WithSize(old(Value()), point)
    {
      width := point.x;
      height := point.y;
    }
  }
}
