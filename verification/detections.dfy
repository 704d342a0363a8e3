/** The detection normaliser: from a raw detector record with optional
    fields to the fixed-shape record of the response. */
module Detections {
  import opened Wrappers
  import opened Coordinates

  /** One prediction as the detector returns it; every key may be absent.
      Geometry and confidence are JSON numbers (floats). */
  datatype RawDetection = RawDetection(
    x: Option<real>,
    y: Option<real>,
    width: Option<real>,
    height: Option<real>,
    cls: Option<string>,
    classId: Option<int>,
    confidence: Option<real>,
    detectionId: Option<string>)

  /** One entry of `all_predictions` / `duplicates`. */
  datatype Detection = Detection(
    browserX: int,
    browserY: int,
    cls: string,
    classId: int,
    confidence: real,
    detectionId: string,
    height: int,
    width: int,
    x: int,
    y: int)

  /** The point handed to the mapper: `x` and `y` truncated by `int()`. */
  function ImagePoint(d: RawDetection): Point {
    Point(Trunc(d.x.GetOr(0.0)), Trunc(d.y.GetOr(0.0)))
  }

  /** The standardised record built for every prediction. Its `class` is
      read with an empty-string default; the pipeline has already put
      "unknown" in place of a missing class by then. */
  function Normalize(d: RawDetection, size: Size, offset: Point): (r: Result<Detection, ArithError>)
    ensures r.Failure? <==> size.width == 0 || size.height == 0
    ensures r.Success? ==>
      var n := r.value;
      && 0 <= n.browserX <= Layout.FullBrowserWidth
      && 0 <= n.browserY <= Layout.FullBrowserHeight
      && Convert(Point(n.x, n.y), size, offset) == Success(Point(n.browserX, n.browserY))
      && n.x == Trunc(d.x.GetOr(0.0)) && n.y == Trunc(d.y.GetOr(0.0))
      && n.width == Trunc(d.width.GetOr(0.0)) && n.height == Trunc(d.height.GetOr(0.0))
      && (d.cls.Some? ==> n.cls == d.cls.value) && (d.cls.None? ==> n.cls == "")
      && (d.classId.Some? ==> n.classId == d.classId.value) && (d.classId.None? ==> n.classId == 0)
      && (d.confidence.Some? ==> n.confidence == d.confidence.value) && (d.confidence.None? ==> n.confidence == 0.0)
      && (d.detectionId.Some? ==> n.detectionId == d.detectionId.value) && (d.detectionId.None? ==> n.detectionId == "")
  {
    match Convert(ImagePoint(d), size, offset)
    case Failure(e) => Failure(e)
    case Success(b) =>
      Success(Detection(
        b.x, b.y,
        d.cls.GetOr(""),
        d.classId.GetOr(0),
        d.confidence.GetOr(0.0),
        d.detectionId.GetOr(""),
        Trunc(d.height.GetOr(0.0)),
        Trunc(d.width.GetOr(0.0)),
        Trunc(d.x.GetOr(0.0)),
        Trunc(d.y.GetOr(0.0))))
  }

  /** The loops that build `all_predictions` and each duplicate class's
      `details`: normalise every record in order; the first division by
      zero aborts the whole list. */
  function NormalizeAll(s: seq<RawDetection>, size: Size, offset: Point): (r: Result<seq<Detection>, ArithError>)
    ensures r.Failure? <==> |s| > 0 && (size.width == 0 || size.height == 0)
    ensures r.Success? ==> |r.value| == |s|
    ensures r.Success? ==> forall i :: 0 <= i < |s| ==> Normalize(s[i], size, offset) == Success(r.value[i])
  {
    if |s| == 0 then Success([])
    else
      match Normalize(s[0], size, offset)
      case Failure(e) => Failure(e)
      case Success(n) =>
        match NormalizeAll(s[1..], size, offset)
        case Failure(e) => Failure(e)
        case Success(rest) =>
          assert forall i :: 1 <= i < |s| ==> s[i] == s[1..][i - 1];
          Success([n] + rest)
  }

  /** Every record that came out of the normaliser lies in the browser frame. */
  predicate AllInFrame(ds: seq<Detection>) {
    forall i :: 0 <= i < |ds| ==> 0 <= ds[i].browserX <= Layout.FullBrowserWidth && 0 <= ds[i].browserY <= Layout.FullBrowserHeight
  }

  lemma NormalizeAllInFrame(s: seq<RawDetection>, size: Size, offset: Point)
    requires NormalizeAll(s, size, offset).Success?
    ensures AllInFrame(NormalizeAll(s, size, offset).value)
  {
    var ds := NormalizeAll(s, size, offset).value;
    forall i | 0 <= i < |ds|
      ensures 0 <= ds[i].browserX <= Layout.FullBrowserWidth && 0 <= ds[i].browserY <= Layout.FullBrowserHeight
    {
      assert Normalize(s[i], size, offset) == Success(ds[i]);
    }
  }
}
