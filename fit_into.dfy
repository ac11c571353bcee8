/**
 * `fitInto:scaleMode:pixelPerfect:` and the `SPScaleMode` enum: a rectangle
 * with the aspect ratio of `r`, scaled according to the mode and centered
 * within `into`.
 */
module FitInto {

  import opened Rectangles
  import Wrappers

  /** `SPScaleMode`. */
  datatype ScaleMode =
    | None      // not scaled, only centered
    | NoBorder  // fills `into`, possibly cropping
    | ShowAll   // fits inside `into`, possibly leaving bars

  // ---------------------------------------------------------------------------
  // Pixel-perfect factors: whole-number multipliers and divisors
  // ---------------------------------------------------------------------------

  predicate IsWhole(t: real) { t == t.Floor as real }

  /** A factor of the form n or 1/n for a whole number n >= 1 (3, 2, 1, 1/2, 1/3, ...). */
  predicate IsPixelPerfect(k: real)
  {
    k > 0.0 && (IsWhole(k) || IsWhole(1.0 / k))
  }

  function Ceiling(t: real): int { -((-t).Floor) }

  lemma CeilingBounds(t: real)
    ensures Ceiling(t) as real - 1.0 < t <= Ceiling(t) as real
  {
  }

  /** The reciprocal of a whole number d >= 1 is pixel-perfect. */
  lemma UnitFraction(d: int)
    requires d >= 1
    ensures IsPixelPerfect(1.0 / d as real) && 1.0 / d as real <= 1.0
  {
    assert 1.0 / (1.0 / d as real) == d as real;
    ReciprocalAntitone(1.0, d as real);
  }

  /** A pixel-perfect factor above 1 is a whole number. */
  lemma AboveOneIsWhole(k: real)
    requires IsPixelPerfect(k) && k > 1.0
    ensures IsWhole(k)
  {
  }

  /** A pixel-perfect factor below 1 is the reciprocal of a whole number. */
  lemma BelowOneIsUnitFraction(k: real)
    requires IsPixelPerfect(k) && k < 1.0
    ensures IsWhole(1.0 / k) && k == 1.0 / (1.0 / k)
  {
  }

  /** The largest pixel-perfect factor that does not exceed `f` (the safe side for ShowAll). */
  function SnapDown(f: real): (k: real)
    requires f > 0.0
    ensures IsPixelPerfect(k) && k <= f
  {
    if f >= 1.0 then
      f.Floor as real
    else
      var d := Ceiling(1.0 / f);
      CeilingBounds(1.0 / f);
      ReciprocalAntitone(1.0 / f, d as real);
      UnitFraction(d);
      1.0 / d as real
  }

  /** The smallest pixel-perfect factor that is not below `f` (the safe side for NoBorder). */
  function SnapUp(f: real): (k: real)
    requires f > 0.0
    ensures IsPixelPerfect(k) && f <= k
  {
    if f >= 1.0 then
      CeilingBounds(f);
      Ceiling(f) as real
    else
      var d := (1.0 / f).Floor;
      ReciprocalAntitone(f, 1.0);
      ReciprocalAntitone(d as real, 1.0 / f);
      UnitFraction(d);
      1.0 / d as real
  }

  /** Taking reciprocals reverses the order of positive numbers. */
  lemma ReciprocalAntitone(a: real, b: real)
    requires 0.0 < a <= b
    ensures 1.0 / b <= 1.0 / a
  {
  }

  /** No pixel-perfect factor lies strictly between SnapDown(f) and f. */
  lemma SnapDownIsGreatest(f: real, k: real)
    requires f > 0.0
    requires IsPixelPerfect(k) && k <= f
    ensures k <= SnapDown(f)
  {
    if k <= 1.0 && f >= 1.0 {
      assert 1.0 <= SnapDown(f);
    } else if k > 1.0 {
      AboveOneIsWhole(k);
      assert k.Floor <= f.Floor;
    } else {
      BelowOneIsUnitFraction(k);
      var m := 1.0 / k;
      ReciprocalAntitone(k, f);
      var d := Ceiling(1.0 / f);
      CeilingBounds(1.0 / f);
      assert d <= m.Floor;
      ReciprocalAntitone(d as real, m);
    }
  }

  /** No pixel-perfect factor lies strictly between f and SnapUp(f). */
  lemma SnapUpIsLeast(f: real, k: real)
    requires f > 0.0
    requires IsPixelPerfect(k) && f <= k
    ensures SnapUp(f) <= k
  {
    if f >= 1.0 {
      SnapUpIsLeastAboveOne(f, k);
    } else if k >= 1.0 {
      assert SnapUp(f) <= 1.0;
    } else {
      SnapUpIsLeastBelowOne(f, k);
    }
  }

  lemma SnapUpIsLeastAboveOne(f: real, k: real)
    requires f >= 1.0
    requires IsPixelPerfect(k) && f <= k
    ensures Ceiling(f) as real <= k
  {
    CeilingBounds(f);
    if k > 1.0 {
      AboveOneIsWhole(k);
      assert Ceiling(f) <= k.Floor;
    }
  }

  lemma SnapUpIsLeastBelowOne(f: real, k: real)
    requires 0.0 < f <= k < 1.0
    requires IsPixelPerfect(k)
    ensures (1.0 / f).Floor >= 1 && 1.0 / (1.0 / f).Floor as real <= k
  {
    ReciprocalAntitone(f, 1.0);
    BelowOneIsUnitFraction(k);
    var m := 1.0 / k;
    ReciprocalAntitone(f, k);
    var d := (1.0 / f).Floor;
    assert m.Floor <= d;
    ReciprocalAntitone(m, d as real);
  }

  // ---------------------------------------------------------------------------
  // The solver
  // ---------------------------------------------------------------------------

  /** What the solver needs to compute a factor: a non-zero size to divide by
      when it scales, and, when it snaps to whole multipliers or divisors, a
      positive ratio to snap (the smaller ratio for ShowAll, the larger one for
      NoBorder). */
  predicate CanFit(r: Rect, into: Rect, mode: ScaleMode, pixelPerfect: bool)
  {
    mode != None ==>
      r.width != 0.0 && r.height != 0.0 &&
      (pixelPerfect && mode == ShowAll ==> Min(into.width / r.width, into.height / r.height) > 0.0) &&
      (pixelPerfect && mode == NoBorder ==> Max(into.width / r.width, into.height / r.height) > 0.0)
  }

  /** The factor by which `r`'s size is multiplied. */
  function ScaleFactor(r: Rect, into: Rect, mode: ScaleMode, pixelPerfect: bool): (k: real)
    requires CanFit(r, into, mode, pixelPerfect)
    ensures mode == None ==> k == 1.0
    ensures mode == NoBorder ==> Max(into.width / r.width, into.height / r.height) <= k
    ensures mode == ShowAll ==> k <= Min(into.width / r.width, into.height / r.height)
    ensures mode == NoBorder && !pixelPerfect ==> k == Max(into.width / r.width, into.height / r.height)
    ensures mode == ShowAll && !pixelPerfect ==> k == Min(into.width / r.width, into.height / r.height)
    ensures mode != None && pixelPerfect ==> IsPixelPerfect(k)
  {
    match mode
    case None => 1.0
    case NoBorder =>
      var f := Max(into.width / r.width, into.height / r.height);
      if pixelPerfect then SnapUp(f) else f
    case ShowAll =>
      var f := Min(into.width / r.width, into.height / r.height);
      if pixelPerfect then SnapDown(f) else f
  }

  /** `fitInto:scaleMode:pixelPerfect:`. */
  function Fit(r: Rect, into: Rect, mode: ScaleMode, pixelPerfect: bool): (fit: Rect)
    requires CanFit(r, into, mode, pixelPerfect)
    ensures fit.width * r.height == fit.height * r.width
    ensures Center(fit) == Center(into)
    ensures var k := ScaleFactor(r, into, mode, pixelPerfect);
            Size(fit) == Point(r.width * k, r.height * k)
    ensures mode == None ==> Size(fit) == Size(r)
    ensures mode != None && pixelPerfect ==>
              exists k :: IsPixelPerfect(k) && Size(fit) == Point(r.width * k, r.height * k)
  {
    var k := ScaleFactor(r, into, mode, pixelPerfect);
    CenteredIn(into, r.width * k, r.height * k)
  }

  /** The rectangle of the given size whose center is `into`'s center. */
  function CenteredIn(into: Rect, width: real, height: real): (c: Rect)
    ensures Center(c) == Center(into) && Size(c) == Point(width, height)
  {
    Rect(into.x + (into.width - width) / 2.0, into.y + (into.height - height) / 2.0, width, height)
  }

  /** A rectangle of `into`'s center whose size is at most `into`'s lies inside it. */
  lemma CenteredSmallerIsInside(into: Rect, fit: Rect)
    requires Center(fit) == Center(into)
    requires fit.width <= into.width && fit.height <= into.height
    ensures ContainsRectangle(into, Wrappers.Some(fit))
  {
  }

  /** `r` scaled by a factor no larger than the ratios of the sizes, and
      centered within `into`, lies inside `into`. */
  lemma ScaledDownIsInside(r: Rect, into: Rect, k: real, fit: Rect)
    requires r.width > 0.0 && r.height > 0.0
    requires k <= into.width / r.width && k <= into.height / r.height
    requires Center(fit) == Center(into) && Size(fit) == Point(r.width * k, r.height * k)
    ensures ContainsRectangle(into, Wrappers.Some(fit))
  {
    ScaledAtMost(r.width, k, into.width);
    ScaledAtMost(r.height, k, into.height);
    CenteredSmallerIsInside(into, fit);
  }

  /** `r` scaled by a factor no smaller than the ratios of the sizes, and
      centered within `into`, covers `into`. */
  lemma ScaledUpCovers(r: Rect, into: Rect, k: real, fit: Rect)
    requires r.width > 0.0 && r.height > 0.0
    requires into.width / r.width <= k && into.height / r.height <= k
    requires Center(fit) == Center(into) && Size(fit) == Point(r.width * k, r.height * k)
    ensures ContainsRectangle(fit, Wrappers.Some(into))
  {
    ScaledAtLeast(r.width, k, into.width);
    ScaledAtLeast(r.height, k, into.height);
    CenteredSmallerIsInside(fit, into);
  }

  /** For a rectangle of positive size, ShowAll puts the whole result inside
      `into`, with or without pixel-perfect snapping. */
  lemma ShowAllFitsInside(r: Rect, into: Rect, pixelPerfect: bool)
    requires r.width > 0.0 && r.height > 0.0
    requires CanFit(r, into, ShowAll, pixelPerfect)
    ensures ContainsRectangle(into, Wrappers.Some(Fit(r, into, ShowAll, pixelPerfect)))
  {
    ScaledDownIsInside(r, into, ScaleFactor(r, into, ShowAll, pixelPerfect), Fit(r, into, ShowAll, pixelPerfect));
  }

  /** For a rectangle of positive size, NoBorder covers all of `into`, with or
      without pixel-perfect snapping. */
  lemma NoBorderCovers(r: Rect, into: Rect, pixelPerfect: bool)
    requires r.width > 0.0 && r.height > 0.0
    requires CanFit(r, into, NoBorder, pixelPerfect)
    ensures ContainsRectangle(Fit(r, into, NoBorder, pixelPerfect), Wrappers.Some(into))
  {
    ScaledUpCovers(r, into, ScaleFactor(r, into, NoBorder, pixelPerfect), Fit(r, into, NoBorder, pixelPerfect));
  }

  /** For positive `w`: `w * k <= t` exactly when `k <= t / w`. */
  lemma ScaledAtMost(w: real, k: real, t: real)
    requires w > 0.0
    ensures w * k <= t <==> k <= t / w
  {
  }

  /** For positive `w`: `t <= w * k` exactly when `t / w <= k`. */
  lemma ScaledAtLeast(w: real, k: real, t: real)
    requires w > 0.0
    ensures t <= w * k <==> t / w <= k
  {
  }

  /** Without snapping, ShowAll uses the largest factor at which `r` fits
      inside `into`; with snapping, the largest pixel-perfect one. */
  lemma ShowAllFactorIsLargest(r: Rect, into: Rect, pixelPerfect: bool, k: real)
    requires r.width > 0.0 && r.height > 0.0
    requires CanFit(r, into, ShowAll, pixelPerfect)
    requires r.width * k <= into.width && r.height * k <= into.height
    requires pixelPerfect ==> IsPixelPerfect(k)
    ensures k <= ScaleFactor(r, into, ShowAll, pixelPerfect)
  {
    ScaledAtMost(r.width, k, into.width);
    ScaledAtMost(r.height, k, into.height);
    if pixelPerfect {
      SnapDownIsGreatest(Min(into.width / r.width, into.height / r.height), k);
    }
  }

  /** Without snapping, NoBorder uses the smallest factor at which `r` covers
      `into`; with snapping, the smallest pixel-perfect one. */
  lemma NoBorderFactorIsSmallest(r: Rect, into: Rect, pixelPerfect: bool, k: real)
    requires r.width > 0.0 && r.height > 0.0
    requires CanFit(r, into, NoBorder, pixelPerfect)
    requires into.width <= r.width * k && into.height <= r.height * k
    requires pixelPerfect ==> IsPixelPerfect(k)
    ensures ScaleFactor(r, into, NoBorder, pixelPerfect) <= k
  {
    ScaledAtLeast(r.width, k, into.width);
    ScaledAtLeast(r.height, k, into.height);
    if pixelPerfect {
      SnapUpIsLeast(Max(into.width / r.width, into.height / r.height), k);
    }
  }

  /** With snapping, NoBorder accepts a target whose width is zero: a 10 x 10
      rectangle covering a 0 x 100 area is scaled by 10. */
  lemma NoBorderZeroWidthExample()
    ensures CanFit(Rect(0.0, 0.0, 10.0, 10.0), Rect(0.0, 0.0, 0.0, 100.0), NoBorder, true)
    ensures ScaleFactor(Rect(0.0, 0.0, 10.0, 10.0), Rect(0.0, 0.0, 0.0, 100.0), NoBorder, true) == 10.0
  {
  }

  /** A 100 x 100 rectangle shown in full within a 50 x 200 area is halved and
      centered vertically. */
  lemma ShowAllExample()
    ensures Fit(Rect(0.0, 0.0, 100.0, 100.0), Rect(0.0, 0.0, 50.0, 200.0), ShowAll, false)
            == Rect(0.0, 75.0, 50.0, 50.0)
  {
  }
}
