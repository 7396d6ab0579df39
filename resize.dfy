/** The decision logic of `compress_img` (main.py:25-66): the resize ratio chosen
    from the optional target width and height, and whether a thumbnail is requested.
    Python's float division is abstracted to exact `real` division. The image's
    natural size `(w0, h0)` is positive, as every image PIL decodes is. */
module Resize {
  import opened Common

  /** What `None / int` raises at main.py:36 when neither bound is given. */
  datatype ResizeError = NoneOperand

  /** The box passed to `img.thumbnail`: the natural size scaled by the ratio. */
  datatype Box = Box(w: real, h: real)

  /** Scaling the image uniformly by `s` respects every bound that is given. */
  ghost predicate Fits(s: real, w0: nat, h0: nat, width: Option<int>, height: Option<int>)
  {
    && (width.Some? ==> s * w0 as real <= width.value as real)
    && (height.Some? ==> s * h0 as real <= height.value as real)
  }

  /** The image already lies within every bound that is given. */
  ghost predicate ImageFits(w0: nat, h0: nat, width: Option<int>, height: Option<int>)
  {
    && (width.Some? ==> w0 <= width.value)
    && (height.Some? ==> h0 <= height.value)
  }

  /** Python's `min(a, b)`. */
  function Min(a: real, b: real): real
  {
    if b < a then b else a
  }

  /** `new_size_ratio` (main.py:35-40): `width / w0` when there is no height,
      `height / h0` when there is no width, and the smaller of the two otherwise.
      With neither bound the division of `None` fails. */
  function SizeRatio(width: Option<int>, height: Option<int>, w0: nat, h0: nat): (r: Result<real, ResizeError>)
    requires w0 > 0 && h0 > 0
    ensures r.Err? <==> width.None? && height.None?
  {
    if height.None? then
      if width.None? then Err(NoneOperand) else Ok(width.value as real / w0 as real)
    else if width.None? then Ok(height.value as real / h0 as real)
    else Ok(Min(width.value as real / w0 as real, height.value as real / h0 as real))
  }

  /** Whenever a ratio is produced it is the largest uniform scale that respects every
      given bound: the image scaled by it fits the box, and no larger scale does. */
  lemma RatioIsLargestFit(width: Option<int>, height: Option<int>, w0: nat, h0: nat)
    requires w0 > 0 && h0 > 0
    ensures var r := SizeRatio(width, height, w0, h0);
      r.Ok? ==> Fits(r.value, w0, h0, width, height)
    ensures var r := SizeRatio(width, height, w0, h0);
      r.Ok? ==> forall s :: Fits(s, w0, h0, width, height) ==> s <= r.value
  {
    var r := SizeRatio(width, height, w0, h0);
    if r.Ok? {
      forall s | s == r.value || Fits(s, w0, h0, width, height)
        ensures s == r.value ==> Fits(s, w0, h0, width, height)
        ensures Fits(s, w0, h0, width, height) ==> s <= r.value
      {
        if width.Some? {
          ScaleBound(s, width.value as real, w0 as real);
        }
        if height.Some? {
          ScaleBound(s, height.value as real, h0 as real);
        }
      }
    }
  }

  /** `s * d <= n` holds exactly for the scales `s` up to `n / d`. */
  lemma ScaleBound(s: real, n: real, d: real)
    requires d > 0.0
    ensures s * d <= n <==> s <= n / d
  {
    var q := n / d;
    assert q * d == n;
    assert s * d - q * d == (s - q) * d;
    if s <= q {
      assert (q - s) * d >= 0.0;
    } else {
      assert (s - q) * d > 0.0;
    }
  }

  /** main.py:43-44: a thumbnail of the image scaled by the ratio is requested only
      when the ratio is below 1, so the box is strictly smaller than the image on both
      axes and has the image's aspect ratio; otherwise the image is left as it is. */
  function ThumbnailRequest(w0: nat, h0: nat, ratio: real): (req: Option<Box>)
    requires w0 > 0 && h0 > 0
    ensures req.Some? <==> ratio < 1.0
    ensures req.Some? ==> req.value.w < w0 as real && req.value.h < h0 as real
    ensures req.Some? ==> req.value.w * h0 as real == req.value.h * w0 as real
  {
    if ratio < 1.0 then
      var box := Box(w0 as real * ratio, h0 as real * ratio);
      ShrinkBelow(w0 as real, ratio);
      ShrinkBelow(h0 as real, ratio);
      Some(box)
    else None
  }

  lemma ShrinkBelow(n: real, ratio: real)
    requires n > 0.0 && ratio < 1.0
    ensures n * ratio < n
  {
    assert n - n * ratio == n * (1.0 - ratio);
  }

  /** The resize decision of `compress_img` for an image of natural size `(w0, h0)`:
      the thumbnail box requested, `None` when the image is kept at its size, or the
      error raised when no bound is given. */
  function ResizeDecision(width: Option<int>, height: Option<int>, w0: nat, h0: nat): (d: Result<Option<Box>, ResizeError>)
    requires w0 > 0 && h0 > 0
    ensures d.Err? <==> width.None? && height.None?
    ensures d.Ok? && d.value.None? <==> d.Ok? && ImageFits(w0, h0, width, height)
    ensures d.Ok? && d.value.Some? ==>
      var box := d.value.value;
      && box.w < w0 as real && box.h < h0 as real
      && (width.Some? ==> box.w <= width.value as real)
      && (height.Some? ==> box.h <= height.value as real)
    ensures d.Ok? && d.value.Some? ==> LargestFitting(d.value.value, w0, h0, width, height)
  {
    match SizeRatio(width, height, w0, h0)
    case Err(e) => Err(e)
    case Ok(ratio) =>
      ThumbnailFits(width, height, w0, h0);
      Ok(ThumbnailRequest(w0, h0, ratio))
  }

  /** The thumbnail requested for the ratio `SizeRatio` produces: none exactly when
      the image already fits, and otherwise the largest box with the image's aspect
      ratio that lies within every given bound. */
  lemma ThumbnailFits(width: Option<int>, height: Option<int>, w0: nat, h0: nat)
    requires w0 > 0 && h0 > 0
    requires width.Some? || height.Some?
    ensures var req := ThumbnailRequest(w0, h0, SizeRatio(width, height, w0, h0).value);
      && (req.None? <==> ImageFits(w0, h0, width, height))
      && (req.Some? ==> width.Some? ==> req.value.w <= width.value as real)
      && (req.Some? ==> height.Some? ==> req.value.h <= height.value as real)
      && (req.Some? ==> LargestFitting(req.value, w0, h0, width, height))
  {
    var r := SizeRatio(width, height, w0, h0).value;
    RatioIsLargestFit(width, height, w0, h0);
    NoUpscale(width, height, w0, h0);
    LargestBox(width, height, w0, h0, r);
    if r < 1.0 {
      var box := Box(w0 as real * r, h0 as real * r);
      assert ThumbnailRequest(w0, h0, r).Some?;
      assert ThumbnailRequest(w0, h0, r).value.w == w0 as real * r;
      assert ThumbnailRequest(w0, h0, r).value == box;
      assert Fits(r, w0, h0, width, height);
      assert w0 as real * r == r * w0 as real && h0 as real * r == r * h0 as real;
    }
  }

  /** `box` has the image's aspect ratio and is at least as large, on both axes, as
      the image scaled by any scale that respects every given bound. */
  ghost predicate LargestFitting(box: Box, w0: nat, h0: nat, width: Option<int>, height: Option<int>)
  {
    && box.w * h0 as real == box.h * w0 as real
    && forall s :: Fits(s, w0, h0, width, height) ==> s * w0 as real <= box.w && s * h0 as real <= box.h
  }

  /** A 2000 x 1000 image with a width bound of 1000 is reduced to 1000 x 500. */
  lemma ResizeExample()
    ensures ResizeDecision(Some(1000), None, 2000, 1000) == Ok(Some(Box(1000.0, 500.0)))
  {
    assert SizeRatio(Some(1000), None, 2000, 1000) == Ok(0.5);
  }

  /** The image scaled by a ratio that no fitting scale exceeds is at least as large
      as the image scaled by any fitting scale, with the image's aspect ratio. */
  lemma LargestBox(width: Option<int>, height: Option<int>, w0: nat, h0: nat, r: real)
    requires w0 > 0 && h0 > 0
    requires forall s :: Fits(s, w0, h0, width, height) ==> s <= r
    ensures LargestFitting(Box(w0 as real * r, h0 as real * r), w0, h0, width, height)
  {
    assert (w0 as real * r) * h0 as real == (h0 as real * r) * w0 as real;
    forall s | Fits(s, w0, h0, width, height)
      ensures s * w0 as real <= w0 as real * r && s * h0 as real <= h0 as real * r
    {
      ScaledBelow(s, r, w0 as real);
      ScaledBelow(s, r, h0 as real);
    }
  }

  lemma ScaledBelow(s: real, t: real, n: real)
    requires s <= t && n > 0.0
    ensures s * n <= n * t
  {
    MonotoneScale(s, t, n);
  }

  /** The image is kept at its size exactly when it already fits every given bound:
      the ratio reaches 1 only when scale 1 fits. */
  lemma NoUpscale(width: Option<int>, height: Option<int>, w0: nat, h0: nat)
    requires w0 > 0 && h0 > 0
    requires width.Some? || height.Some?
    ensures SizeRatio(width, height, w0, h0).Ok?
    ensures 1.0 <= SizeRatio(width, height, w0, h0).value <==> ImageFits(w0, h0, width, height)
  {
    var r := SizeRatio(width, height, w0, h0).value;
    RatioIsLargestFit(width, height, w0, h0);
    if ImageFits(w0, h0, width, height) {
      assert Fits(1.0, w0, h0, width, height);
    }
    if 1.0 <= r {
      if width.Some? {
        MonotoneScale(1.0, r, w0 as real);
      }
      if height.Some? {
        MonotoneScale(1.0, r, h0 as real);
      }
    }
  }

  lemma MonotoneScale(s: real, t: real, n: real)
    requires s <= t && n > 0.0
    ensures s * n <= t * n
  {
    assert t * n - s * n == (t - s) * n;
  }
}
