/** The coordinate mapper: from a point in the detector's image space to a
    pixel of the fixed browser frame. */
module Coordinates {
  import opened Wrappers
  import opened Layout

  datatype Point = Point(x: int, y: int)

  /** Image dimensions as the detector reports them. */
  datatype Size = Size(width: int, height: int)

  /** The only exception the arithmetic of the pipeline can raise. */
  datatype ArithError = DivisionByZero

  function Abs(n: int): nat {
    if n < 0 then -n else n
  }

  /** Python 3's `round` applied to the exact rational `n / d`: the nearest
      integer, ties going to the even neighbour. */
  function RoundHalfEven(n: int, d: int): (r: int)
    requires d != 0
    ensures 2 * Abs(n - r * d) <= Abs(d)
    ensures 2 * Abs(n - r * d) == Abs(d) ==> r % 2 == 0
    decreases if d < 0 then 1 else 0
  {
    if d < 0 then
      var r := RoundHalfEven(-n, -d);
      NegatedRemainder(n, r, d);
      r
    else
      var q := n / d;
      var m := n % d;
      assert n - q * d == m;
      assert n - (q + 1) * d == m - d;
      if 2 * m < d then q
      else if 2 * m > d then q + 1
      else if q % 2 == 0 then q
      else q + 1
  }

  /** The two properties in the contract of `RoundHalfEven` single out one
      integer: whatever rounding satisfies them is Python's `round`. */
  lemma RoundHalfEvenUnique(n: int, d: int, r: int)
    requires d != 0
    requires 2 * Abs(n - r * d) <= Abs(d)
    requires 2 * Abs(n - r * d) == Abs(d) ==> r % 2 == 0
    ensures r == RoundHalfEven(n, d)
  {
    if d < 0 {
      NegatedRemainder(n, r, d);
      RoundHalfEvenUniquePositive(-n, -d, r);
    } else {
      RoundHalfEvenUniquePositive(n, d, r);
    }
  }

  lemma RoundHalfEvenUniquePositive(n: int, d: int, r: int)
    requires d > 0
    requires 2 * Abs(n - r * d) <= d
    requires 2 * Abs(n - r * d) == d ==> r % 2 == 0
    ensures r == RoundHalfEven(n, d)
  {
    var s := RoundHalfEven(n, d);
    var a := n - r * d;
    var b := n - s * d;
    if r > s {
      ProductDifference(n, r, s, d);
      AdjacentTies(a, b, r - s, d);
      EvenNeighbours(s, r);
    } else if s > r {
      ProductDifference(n, s, r, d);
      AdjacentTies(b, a, s - r, d);
      EvenNeighbours(r, s);
    }
  }

  lemma NegatedRemainder(n: int, r: int, d: int)
    ensures -n - r * -d == -(n - r * d)
  {
  }

  lemma ProductDifference(n: int, r: int, s: int, d: int)
    ensures (n - s * d) - (n - r * d) == (r - s) * d
  {
  }

  lemma EvenNeighbours(s: int, r: int)
    requires r == s + 1
    ensures !(r % 2 == 0 && s % 2 == 0)
  {
  }

  /** Two remainders within d/2 of zero that differ by a positive multiple
      `k * d` of `d` differ by exactly `d`, and both sit on the tie. */
  lemma AdjacentTies(a: int, b: int, k: int, d: int)
    requires d > 0 && k >= 1
    requires 2 * Abs(a) <= d && 2 * Abs(b) <= d
    requires b - a == k * d
    ensures k == 1
    ensures 2 * Abs(a) == d && 2 * Abs(b) == d
  {
    MulLowerBound(k, d);
  }

  lemma MulLowerBound(k: int, d: int)
    requires k >= 1 && d > 0
    ensures k * d >= d
    ensures k >= 2 ==> k * d >= 2 * d
  {
    assert k * d == (k - 1) * d + d;
    MulNonNegative(k - 1, d);
    if k >= 2 {
      assert k * d == (k - 2) * d + 2 * d;
      MulNonNegative(k - 2, d);
    }
  }

  lemma MulNonNegative(x: int, y: int)
    requires x >= 0 && y >= 0
    ensures x * y >= 0
  {
  }

  /** `b` is `u` clamped into `[0, hi]`, case by case. */
  predicate ClampedTo(b: int, u: int, hi: int) {
    && (0 <= u <= hi ==> b == u)
    && (u < 0 ==> b == 0)
    && (u > hi ==> b == hi)
  }

  /** `min(max(0, v), hi)`. */
  function Clamp(v: int, hi: int): (b: int)
    requires 0 <= hi
    ensures 0 <= b <= hi
    ensures ClampedTo(b, v, hi)
  {
    var lower := if 0 < v then v else 0;
    if lower < hi then lower else hi
  }

  /** Python's `int()` on a float: truncation toward zero. */
  function Trunc(r: real): (t: int)
    ensures 0.0 <= r ==> t as real <= r < t as real + 1.0
    ensures r < 0.0 ==> t as real - 1.0 < r <= t as real
  {
    if 0.0 <= r then r.Floor else -((-r).Floor)
  }

  /** Inside the outer browser frame. */
  predicate InFrame(p: Point) {
    0 <= p.x <= FullBrowserWidth && 0 <= p.y <= FullBrowserHeight
  }

  /** `convert_coordinates`: scale `p` from an image of size `size` to the
      288x179 CAPTCHA frame, translate by `offset`, clamp to the frame.
      Computing `288 / width` raises when the width is 0, and likewise
      for the height. */
  function Convert(p: Point, size: Size, offset: Point): (r: Result<Point, ArithError>)
    ensures r.Failure? <==> size.width == 0 || size.height == 0
    ensures r.Success? ==> InFrame(r.value)
    ensures r.Success? ==>
      && ClampedTo(r.value.x, offset.x + RoundHalfEven(p.x * CaptchaImageWidth, size.width), FullBrowserWidth)
      && ClampedTo(r.value.y, offset.y + RoundHalfEven(p.y * CaptchaImageHeight, size.height), FullBrowserHeight)
  {
    if size.width == 0 || size.height == 0 then Failure(DivisionByZero)
    else
      var captchaX := RoundHalfEven(p.x * CaptchaImageWidth, size.width);
      var captchaY := RoundHalfEven(p.y * CaptchaImageHeight, size.height);
      Success(Point(Clamp(offset.x + captchaX, FullBrowserWidth),
                    Clamp(offset.y + captchaY, FullBrowserHeight)))
  }

  /** `process_image`'s offsets: the caller's, or the CAPTCHA image's
      position in the default layout. */
  function OffsetOrDefault(offsetX: Option<int>, offsetY: Option<int>): (o: Point)
    ensures offsetX.None? ==> o.x == 107
    ensures offsetY.None? ==> o.y == 197
    ensures offsetX.Some? ==> o.x == offsetX.value
    ensures offsetY.Some? ==> o.y == offsetY.value
  {
    Point(offsetX.GetOr(CaptchaImageX), offsetY.GetOr(CaptchaImageY))
  }

  /** The point (150, 75) of a 300 x 150 image with offset (50, 100) maps
      to (194, 190): x scales to 144, and the y product 75 * 179 / 150 is
      the tie 89.5, which goes to 90. */
  lemma MapperExample()
    ensures Convert(Point(150, 75), Size(300, 150), Point(50, 100)) == Success(Point(194, 190))
  {
    RoundHalfEvenUnique(150 * 288, 300, 144);
    RoundHalfEvenUnique(75 * 179, 150, 90);
  }

  /** In a 576 x 358 image both ratios are one half, so the point (1, 5)
      lands on the ties 0.5 and 2.5; they go to the even 0 and 2, where
      rounding half up would give 1 and 3. */
  lemma HalfToEvenExample()
    ensures Convert(Point(1, 5), Size(576, 358), Point(107, 197)) == Success(Point(107, 199))
    ensures RoundHalfEven(1 * 288, 576) == 0 && RoundHalfEven(5 * 179, 358) == 2
  {
    RoundHalfEvenUnique(1 * 288, 576, 0);
    RoundHalfEvenUnique(5 * 179, 358, 2);
  }
}
