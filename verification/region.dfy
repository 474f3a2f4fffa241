/**
 The rectangle arithmetic of the region picker (`RegionSelector.on_release`,
 ridi_translation.py:95-111) and the thumbnail size `cheap_region_hash`
 downsamples a capture to (ridi_translation.py:29-31).
 */
module Region {
  import opened Wrappers

  /** Smallest accepted side of a selected region, in pixels. */
  const MinSide: int := 40

  /** Smallest side of the fingerprint thumbnail, in pixels. */
  const MinThumbSide: nat := 40

  /** The `CaptureRegion` dataclass: screen coordinates of the area to watch. */
  datatype CaptureRegion = CaptureRegion(left: int, top: int, width: int, height: int)

  function Min(a: int, b: int): int { if a <= b then a else b }
  function Max(a: int, b: int): int { if a <= b then b else a }

  /** The rectangle spanned by the press point `(x1, y1)` and the release point
      `(x2, y2)`, or `None` when it is narrower or shorter than `MinSide`. */
  function SelectRect(x1: int, y1: int, x2: int, y2: int): (r: Option<CaptureRegion>)
    ensures r.Some? <==> Max(x1, x2) - Min(x1, x2) >= MinSide && Max(y1, y2) - Min(y1, y2) >= MinSide
    ensures r.Some? ==>
      && r.value.left == Min(x1, x2) && r.value.left + r.value.width == Max(x1, x2)
      && r.value.top == Min(y1, y2) && r.value.top + r.value.height == Max(y1, y2)
      && r.value.width >= MinSide && r.value.height >= MinSide
  {
    var left := Min(x1, x2);
    var top := Min(y1, y2);
    var right := Max(x1, x2);
    var bottom := Max(y1, y2);
    var width := Max(1, right - left);
    var height := Max(1, bottom - top);
    if width < MinSide || height < MinSide then None
    else Some(CaptureRegion(left, top, width, height))
  }

  /** Dragging from either corner to the opposite one selects the same region. */
  lemma SelectRectSymmetric(x1: int, y1: int, x2: int, y2: int)
    ensures SelectRect(x1, y1, x2, y2) == SelectRect(x2, y2, x1, y1)
    ensures SelectRect(x1, y1, x2, y2) == SelectRect(x2, y1, x1, y2)
  {
  }

  /** Every accepted region contains the press and the release point. */
  lemma SelectRectContainsCorners(x1: int, y1: int, x2: int, y2: int)
    requires SelectRect(x1, y1, x2, y2).Some?
    ensures var r := SelectRect(x1, y1, x2, y2).value;
      && r.left <= x1 <= r.left + r.width && r.left <= x2 <= r.left + r.width
      && r.top <= y1 <= r.top + r.height && r.top <= y2 <= r.top + r.height
  {
  }

  /** One side of the fingerprint thumbnail: `max(40, side // 10)`. */
  function ThumbSide(side: nat): (t: nat)
    ensures t >= MinThumbSide
    ensures t == MinThumbSide || (10 * t <= side < 10 * t + 10)
    ensures t > MinThumbSide <==> side >= 10 * MinThumbSide + 10
  {
    Max(MinThumbSide, side / 10)
  }

  /** The thumbnail of an accepted region is never larger than the region:
      the fingerprint never upsamples. */
  lemma ThumbnailFitsRegion(r: CaptureRegion)
    requires r.width >= MinSide && r.height >= MinSide
    ensures ThumbSide(r.width) <= r.width && ThumbSide(r.height) <= r.height
  {
  }
}
