/**
 Marker sizing: `px_size` turns a 0-100 percent into a marker diameter in pixels.
 The source divides in floating point and truncates with `int()`; this model
 computes the same quantity exactly, `min_px + (max_px - min_px) * percent / 100`
 truncated toward zero, and leaves floating-point rounding out.
 */
module Sizing {

  /** The defaults of `px_size`, also the sizes used for the baseline row. */
  const DefaultMinPx: int := 6
  const DefaultMaxPx: int := 28

  /** Python's `int()` on the quotient `n / d`: truncation toward zero. */
  function TowardZero(n: int, d: int): (q: int)
    requires d > 0
    ensures 0 <= n ==> 0 <= q && q * d <= n < q * d + d
    ensures n < 0 ==> q <= 0 && q * d - d < n <= q * d
  {
    if n >= 0 then n / d else -((-n) / d)
  }

  lemma TowardZeroMonotone(n: int, m: int, d: int)
    requires d > 0 && n <= m
    ensures TowardZero(n, d) <= TowardZero(m, d)
  {
    var q, r := TowardZero(n, d), TowardZero(m, d);
    if 0 <= n {
      // q * d <= n <= m < (r + 1) * d
      if q > r {
        MulMonotone(r + 1, q, d);
      }
    } else if m < 0 {
      // (q - 1) * d < n <= m <= r * d
      if q > r {
        MulMonotone(r, q - 1, d);
      }
    }
  }

  lemma MulMonotone(a: int, b: int, c: int)
    requires a <= b && c >= 0
    ensures a * c <= b * c
  {
    assert b * c - a * c == (b - a) * c;
  }

  /** Truncating an exact multiple gives the factor back. */
  lemma TowardZeroOfMultiple(k: int, d: int)
    requires d > 0
    ensures TowardZero(k * d, d) == k
  {
    var q := TowardZero(k * d, d);
    if q < k {
      MulMonotone(q + 1, k, d);
    } else if q > k {
      MulMonotone(k + 1, q, d);
    }
  }

  /** `max(0, min(100, percent))`. */
  function ClampPercent(percent: int): (p: int)
    ensures 0 <= p <= 100
    ensures 0 <= percent <= 100 ==> p == percent
    ensures percent > 100 ==> p == 100
    ensures percent < 0 ==> p == 0
  {
    if percent < 0 then 0 else if percent > 100 then 100 else percent
  }

  /**
   What `px_size(percent, min_px, max_px)` returns: a positive percent gives a
   size between `min_px` and `max_px`.
   */
  function MarkerSize(percent: int, minPx: int, maxPx: int): (size: int)
    ensures percent > 0 && minPx <= maxPx ==> minPx <= size <= maxPx
  {
    if percent <= 0 then 0
    else
      var p := ClampPercent(percent);
      var n := 100 * minPx + (maxPx - minPx) * p;
      assert minPx <= maxPx ==> minPx <= TowardZero(n, 100) <= maxPx by {
        if minPx <= maxPx {
          MulMonotone(0, p, maxPx - minPx);
          MulMonotone(p, 100, maxPx - minPx);
          TowardZeroMonotone(minPx * 100, n, 100);
          TowardZeroOfMultiple(minPx, 100);
          TowardZeroMonotone(n, maxPx * 100, 100);
          TowardZeroOfMultiple(maxPx, 100);
        }
      }
      TowardZero(n, 100)
  }

  /**
   `px_size`: no marker for a non-positive percent; otherwise the percent is
   clamped to 0-100 and the size interpolated between `min_px` and `max_px`.
   */
  method PxSize(percent: int, minPx: int, maxPx: int) returns (size: int)
    ensures size == MarkerSize(percent, minPx, maxPx)
    ensures percent <= 0 ==> size == 0
    ensures percent >= 100 ==> size == maxPx
    ensures percent > 0 && minPx <= maxPx ==> minPx <= size <= maxPx
  {
    if percent <= 0 {
      return 0;
    }
    var p := percent;
    if p > 100 {
      p := 100;
    }
    if p < 0 {
      p := 0;
    }
    assert p == ClampPercent(percent);
    size := TowardZero(100 * minPx + (maxPx - minPx) * p, 100);
    if percent >= 100 {
      MarkerSizeAtFull(percent, minPx, maxPx);
    }
  }

  /** From 100 percent on the size is `max_px`. */
  lemma MarkerSizeAtFull(percent: int, minPx: int, maxPx: int)
    requires percent >= 100
    ensures MarkerSize(percent, minPx, maxPx) == maxPx
  {
    assert 100 * minPx + (maxPx - minPx) * 100 == maxPx * 100;
    TowardZeroOfMultiple(maxPx, 100);
  }

  /** A larger percent never gives a smaller marker. */
  lemma MarkerSizeMonotone(p: int, q: int, minPx: int, maxPx: int)
    requires p <= q && 0 <= minPx <= maxPx
    ensures MarkerSize(p, minPx, maxPx) <= MarkerSize(q, minPx, maxPx)
  {
    if p > 0 {
      var cp, cq := ClampPercent(p), ClampPercent(q);
      MulMonotone(cp, cq, maxPx - minPx);
      TowardZeroMonotone(100 * minPx + (maxPx - minPx) * cp, 100 * minPx + (maxPx - minPx) * cq, 100);
    }
  }

  /** The baseline row's markers, `px_size(100)`, are 28 pixels. */
  lemma BaselineMarkerSize()
    ensures MarkerSize(100, DefaultMinPx, DefaultMaxPx) == 28
  {
    MarkerSizeAtFull(100, DefaultMinPx, DefaultMaxPx);
  }
}
