/** The result assembler: `process_image` from the detector's response to
    the JSON envelope, or to the error envelope when anything raises. */
module Pipeline {
  import opened Wrappers
  import opened Layout
  import opened Coordinates
  import opened Detections
  import opened Ranking
  import opened Grouping
  import opened Duplicates

  /** The `image` object of the detector response. The detector may report
      its dimensions as JSON floats. */
  datatype ImageMeta = ImageMeta(width: Option<real>, height: Option<real>)

  /** The detector's JSON response; every key may be absent. */
  datatype DetectorResponse = DetectorResponse(
    image: Option<ImageMeta>,
    predictions: Option<seq<RawDetection>>,
    inferenceId: Option<string>,
    time: Option<real>)

  /** Loading the image and calling the detector either yield a response
      or raise with a message. */
  datatype DetectorOutcome = Responded(response: DetectorResponse) | Raised(message: string)

  /** The two copies of the service differ only in the keys of the error
      envelope: the current one and the older Vietnamese-keyed one. */
  datatype Dialect = Current | Legacy

  datatype ErrorCause = DetectorError(message: string) | ZeroDivision

  datatype ErrorEnvelope = ErrorEnvelope(
    errorKey: string,
    detailsKey: string,
    cause: ErrorCause,
    details: string,
    duplicateCharacters: seq<DuplicateEntry>,
    duplicates: seq<Detection>,
    allPredictions: seq<Detection>)

  /** `coordinate_transform`; the ratios are exact here (the service
      rounds them to 4 decimals). */
  datatype Transform = Transform(xRatio: real, yRatio: real, offsetX: int, offsetY: int)

  /** The `image` block of the response. */
  datatype ImageInfo = ImageInfo(
    captchaHeight: int,
    captchaWidth: int,
    fullBrowserHeight: int,
    fullBrowserWidth: int,
    height: int,
    width: int,
    captchaOffsetX: int,
    captchaOffsetY: int)

  datatype Envelope = Envelope(
    allPredictions: seq<Detection>,
    coordinateTransform: Transform,
    duplicateCharacters: seq<DuplicateEntry>,
    duplicateCount: int,
    duplicates: seq<Detection>,
    image: ImageInfo,
    uiLayout: UiLayout,
    inferenceId: string,
    time: real,
    totalDetected: int,
    uniqueCharacters: int)

  datatype Output = Analysed(envelope: Envelope) | Failed(failure: ErrorEnvelope)

  const ErrorDetails: string := "Lỗi trong quá trình xử lý ảnh"

  /** The `except` branch of `process_image`. */
  function ErrorOutput(dialect: Dialect, cause: ErrorCause): (o: Output)
    ensures o.Failed?
    ensures o.failure.cause == cause && o.failure.details == ErrorDetails
    ensures o.failure.duplicateCharacters == [] && o.failure.duplicates == [] && o.failure.allPredictions == []
    ensures dialect.Current? ==> o.failure.errorKey == "error" && o.failure.detailsKey == "details"
    ensures dialect.Legacy? ==> o.failure.errorKey == "lỗi" && o.failure.detailsKey == "chi_tiết"
  {
    var (errorKey, detailsKey) := match dialect
      case Current => ("error", "details")
      case Legacy => ("lỗi", "chi_tiết");
    Failed(ErrorEnvelope(errorKey, detailsKey, cause, ErrorDetails, [], [], []))
  }

  /** `results["image"]` after a missing image was defaulted to 0 x 0. */
  function ImageOf(resp: DetectorResponse): ImageMeta {
    resp.image.GetOr(ImageMeta(Some(0.0), Some(0.0)))
  }

  function PredictionsOf(resp: DetectorResponse): seq<RawDetection> {
    resp.predictions.GetOr([])
  }

  /** The image size handed to the mapper and reported in the `image`
      block: each dimension read with default 0 and passed through `int()`. */
  function SizeOf(resp: DetectorResponse): Size {
    Size(Trunc(ImageOf(resp).width.GetOr(0.0)), Trunc(ImageOf(resp).height.GetOr(0.0)))
  }

  /** The envelope assembled from the sorted and normalised parts: the
      ratios map the reported size onto the CAPTCHA image, the image block
      reports the fixed geometry with the offsets and the size, and absent
      `inference_id` and `time` keys default to "" and 0. */
  function Assemble(resp: DetectorResponse, offset: Point, dup: (seq<DuplicateEntry>, seq<Detection>),
                    all: seq<Detection>, ratioWidth: real, ratioHeight: real): (env: Envelope)
    requires ratioWidth != 0.0 && ratioHeight != 0.0
    ensures env.allPredictions == all && env.duplicateCharacters == dup.0 && env.duplicates == dup.1
    ensures env.duplicateCount == |dup.0|
    ensures Scales(env.coordinateTransform.xRatio, ratioWidth, CaptchaImageWidth)
    ensures Scales(env.coordinateTransform.yRatio, ratioHeight, CaptchaImageHeight)
    ensures env.coordinateTransform.offsetX == env.image.captchaOffsetX == offset.x
    ensures env.coordinateTransform.offsetY == env.image.captchaOffsetY == offset.y
    ensures env.image.width == SizeOf(resp).width && env.image.height == SizeOf(resp).height
    ensures env.image.captchaWidth == CaptchaImageWidth && env.image.captchaHeight == CaptchaImageHeight
    ensures env.image.fullBrowserWidth == FullBrowserWidth && env.image.fullBrowserHeight == FullBrowserHeight
    ensures env.uiLayout == Ui()
    ensures resp.inferenceId.Some? ==> env.inferenceId == resp.inferenceId.value
    ensures resp.inferenceId.None? ==> env.inferenceId == ""
    ensures resp.time.Some? ==> env.time == resp.time.value
    ensures resp.time.None? ==> env.time == 0.0
    ensures env.totalDetected == |PredictionsOf(resp)|
    ensures env.uniqueCharacters == |GroupAll(SortDesc(PredictionsOf(resp)))|
  {
    var xRatio := CaptchaImageWidth as real / ratioWidth;
    var yRatio := CaptchaImageHeight as real / ratioHeight;
    RatioScales(CaptchaImageWidth, ratioWidth);
    RatioScales(CaptchaImageHeight, ratioHeight);
    var size := SizeOf(resp);
    Envelope(
      all,
      Transform(xRatio, yRatio, offset.x, offset.y),
      dup.0,
      |dup.0|,
      dup.1,
      ImageInfo(CaptchaImageHeight, CaptchaImageWidth, FullBrowserHeight, FullBrowserWidth,
                size.height, size.width, offset.x, offset.y),
      Ui(),
      resp.inferenceId.GetOr(""),
      resp.time.GetOr(0.0),
      |PredictionsOf(resp)|,
      |GroupAll(SortDesc(PredictionsOf(resp)))|)
  }

  /** `ratio` maps a length of `from` onto a length of `to`. */
  predicate Scales(ratio: real, from: real, to: int) {
    ratio * from == to as real
  }

  lemma RatioScales(n: int, d: real)
    requires d != 0.0
    ensures Scales(n as real / d, d, n)
  {
  }

  /** When the analysis divides by zero: some prediction had to be mapped
      against a zero (or missing) width or height, or the reported width
      or height is 0 (a missing image reports both as 0). */
  predicate DividesByZero(resp: DetectorResponse) {
    || (|PredictionsOf(resp)| > 0 && (SizeOf(resp).width == 0 || SizeOf(resp).height == 0))
    || ImageOf(resp).width == Some(0.0)
    || ImageOf(resp).height == Some(0.0)
  }

  /** The body of the `try` once the detector has answered. */
  function Analyse(resp: DetectorResponse, offset: Point): (r: Result<Envelope, ArithError>)
    ensures r.Failure? <==> DividesByZero(resp)
  {
    var image := ImageOf(resp);
    var loops := Loops(PredictionsOf(resp), SizeOf(resp), offset);
    // The ratio divides by the raw dimension, read as 1 when missing.
    var ratioWidth := image.width.GetOr(1.0);
    var ratioHeight := image.height.GetOr(1.0);
    assert ratioWidth == 0.0 <==> image.width == Some(0.0);
    assert ratioHeight == 0.0 <==> image.height == Some(0.0);
    if loops.0.Failure? || loops.1.Failure? || ratioWidth == 0.0 || ratioHeight == 0.0 then Failure(DivisionByZero)
    else Success(Assemble(resp, offset, loops.0.value, loops.1.value, ratioWidth, ratioHeight))
  }

  /** The duplicates loop and the all-predictions loop over the sorted
      predictions. They divide by zero exactly when there is a prediction
      to map and a dimension is 0; the duplicates loop never fails where
      the all-predictions loop succeeds. */
  function Loops(preds: seq<RawDetection>, size: Size, offset: Point)
    : (r: (Result<(seq<DuplicateEntry>, seq<Detection>), ArithError>, Result<seq<Detection>, ArithError>))
    ensures r.0 == CollectDuplicates(GroupAll(SortDesc(preds)), size, offset)
    ensures r.1 == NormalizeAll(Labelled(SortDesc(preds)), size, offset)
    ensures r.1.Failure? <==> |preds| > 0 && (size.width == 0 || size.height == 0)
    ensures r.0.Failure? ==> r.1.Failure?
  {
    LoopsFailExactly(preds, size, offset);
    var sorted := SortDesc(preds);
    (CollectDuplicates(GroupAll(sorted), size, offset), NormalizeAll(Labelled(sorted), size, offset))
  }

  lemma LoopsFailExactly(preds: seq<RawDetection>, size: Size, offset: Point)
    ensures NormalizeAll(Labelled(SortDesc(preds)), size, offset).Failure? <==>
      |preds| > 0 && (size.width == 0 || size.height == 0)
    ensures CollectDuplicates(GroupAll(SortDesc(preds)), size, offset).Failure? ==>
      |preds| > 0 && (size.width == 0 || size.height == 0)
  {
    if |preds| == 0 {
      assert SortDesc(preds) == [];
      assert GroupAll(SortDesc(preds)) == [];
    }
  }

  /** `process_image`: offsets defaulted, every exception turned into the
      error envelope. The error envelope is returned exactly when the
      detector raised or the analysis divides by zero; it carries the
      dialect's keys, the fixed details text and empty result lists.
      Otherwise the result is the analysis with the defaulted offsets. */
  function Process(outcome: DetectorOutcome, offsetX: Option<int>, offsetY: Option<int>, dialect: Dialect): (o: Output)
    ensures o.Failed? <==> outcome.Raised? || DividesByZero(outcome.response)
    ensures o.Failed? ==>
      && o.failure.duplicateCharacters == [] && o.failure.duplicates == [] && o.failure.allPredictions == []
      && o.failure.details == ErrorDetails
      && (dialect.Current? ==> o.failure.errorKey == "error" && o.failure.detailsKey == "details")
      && (dialect.Legacy? ==> o.failure.errorKey == "lỗi" && o.failure.detailsKey == "chi_tiết")
      && (outcome.Raised? ==> o.failure.cause == DetectorError(outcome.message))
      && (outcome.Responded? ==> o.failure.cause == ZeroDivision)
    ensures o.Analysed? ==>
      && outcome.Responded?
      && Analyse(outcome.response, OffsetOrDefault(offsetX, offsetY)) == Success(o.envelope)
  {
    match outcome
    case Raised(msg) => ErrorOutput(dialect, DetectorError(msg))
    case Responded(resp) =>
      match Analyse(resp, OffsetOrDefault(offsetX, offsetY))
      case Failure(_) => ErrorOutput(dialect, ZeroDivision)
      case Success(envelope) => Analysed(envelope)
  }

  /** A response without an `image` key always ends in the error envelope. */
  lemma MissingImageFails(resp: DetectorResponse, offsetX: Option<int>, offsetY: Option<int>, dialect: Dialect)
    requires resp.image.None?
    ensures Process(Responded(resp), offsetX, offsetY, dialect).Failed?
    ensures Process(Responded(resp), offsetX, offsetY, dialect).failure.cause == ZeroDivision
  {
  }

  /** The pieces a successful analysis is assembled from. */
  lemma AnalyseParts(resp: DetectorResponse, offset: Point)
    requires !DividesByZero(resp)
    ensures var sorted := SortDesc(PredictionsOf(resp));
      var dup := CollectDuplicates(GroupAll(sorted), SizeOf(resp), offset);
      var all := NormalizeAll(Labelled(sorted), SizeOf(resp), offset);
      var env := Analyse(resp, offset).value;
      && dup.Success? && all.Success?
      && env.allPredictions == all.value
      && env.duplicateCharacters == dup.value.0
      && env.duplicates == dup.value.1
      && env.duplicateCount == |dup.value.0|
      && env.totalDetected == |PredictionsOf(resp)|
      && env.uniqueCharacters == |GroupAll(sorted)|
      && env.coordinateTransform.offsetX == offset.x && env.coordinateTransform.offsetY == offset.y
      && env.image.width == SizeOf(resp).width && env.image.height == SizeOf(resp).height
      && env.uiLayout == Ui()
  {
  }

  /** `all_predictions` has one record per input prediction, in sorted
      order, each the normalisation of that prediction with its class
      defaulted, and `total_detected` counts them. */
  lemma AllPredictionsCoverInput(resp: DetectorResponse, offset: Point)
    requires !DividesByZero(resp)
    ensures var env := Analyse(resp, offset).value;
      var preds := PredictionsOf(resp);
      var sorted := SortDesc(preds);
      && env.totalDetected == |preds| == |env.allPredictions|
      && (forall i :: 0 <= i < |preds| ==>
            && Normalize(WithLabel(sorted[i]), SizeOf(resp), offset) == Success(env.allPredictions[i])
            && env.allPredictions[i].cls == Label(sorted[i]))
  {
    AnalyseParts(resp, offset);
  }

  /** `unique_characters` is the number of distinct (defaulted) classes. */
  lemma UniqueCharactersCountsClasses(resp: DetectorResponse, offset: Point)
    requires !DividesByZero(resp)
    ensures Analyse(resp, offset).value.uniqueCharacters == |set d | d in PredictionsOf(resp) :: Label(d)|
  {
    AnalyseParts(resp, offset);
    var preds := PredictionsOf(resp);
    var sorted := SortDesc(preds);
    GroupCountIsDistinctLabels(sorted);
    PermutationKeepsLabels(sorted, preds);
  }

  /** Every browser point of the envelope is inside the frame. */
  lemma EnvelopeInFrame(resp: DetectorResponse, offset: Point)
    requires !DividesByZero(resp)
    ensures AllInFrame(Analyse(resp, offset).value.allPredictions)
    ensures AllInFrame(Analyse(resp, offset).value.duplicates)
  {
    AnalyseParts(resp, offset);
    var sorted := SortDesc(PredictionsOf(resp));
    var size := SizeOf(resp);
    NormalizeAllInFrame(Labelled(sorted), size, offset);
    var ds := DuplicateGroups(GroupAll(sorted));
    var es := CollectDuplicates(GroupAll(sorted), size, offset).value.0;
    forall i | 0 <= i < |es|
      ensures AllInFrame(es[i].details)
    {
      NormalizeAllInFrame(Labelled(SortDesc(ds[i].members)), size, offset);
    }
    FlattenInFrame(es);
  }

  /** The classes that occur more than once among the input predictions. */
  function DuplicateClasses(preds: seq<RawDetection>): set<string> {
    set d | d in preds && |OfLabel(preds, Label(d))| > 1 :: Label(d)
  }

  /** Each `duplicate_characters` entry counts its class's occurrences in
      the input and details its members in sorted order. */
  lemma DuplicateEntriesDetailClasses(resp: DetectorResponse, offset: Point)
    requires !DividesByZero(resp)
    ensures var es := Analyse(resp, offset).value.duplicateCharacters;
      var preds := PredictionsOf(resp);
      && (forall i :: 0 <= i < |es| ==> es[i].count == |OfLabel(preds, es[i].name)| == |es[i].details|)
      && (forall i :: 0 <= i < |es| ==>
            NormalizeAll(Labelled(OfLabel(SortDesc(preds), es[i].name)), SizeOf(resp), offset) == Success(es[i].details))
  {
    AnalyseParts(resp, offset);
    var preds := PredictionsOf(resp);
    var sorted := SortDesc(preds);
    var size := SizeOf(resp);
    var gs := GroupAll(sorted);
    var ds := DuplicateGroups(gs);
    var es := CollectDuplicates(gs, size, offset).value.0;
    GroupAllMembers(sorted);
    forall i | 0 <= i < |es|
      ensures es[i].count == |OfLabel(preds, es[i].name)|
      ensures NormalizeAll(Labelled(OfLabel(sorted, es[i].name)), size, offset) == Success(es[i].details)
    {
      assert ds[i] in gs;
      assert ds[i].members == OfLabel(sorted, ds[i].name);
      GroupOfSorted(preds, ds[i].name);
      OfLabelNonIncreasing(sorted, ds[i].name);
      SortDescIdempotent(ds[i].members);
    }
  }

  /** A class is listed in `duplicate_characters` exactly when it occurs
      more than once, each class once; `duplicate_count` is the number of
      such classes. */
  lemma DuplicateClassesExactly(resp: DetectorResponse, offset: Point)
    requires !DividesByZero(resp)
    ensures var env := Analyse(resp, offset).value;
      var es := env.duplicateCharacters;
      var preds := PredictionsOf(resp);
      && Distinct(NamesOf(es))
      && (forall l :: l in NamesOf(es) <==> |OfLabel(preds, l)| > 1)
      && env.duplicateCount == |es| == |DuplicateClasses(preds)|
  {
    AnalyseParts(resp, offset);
    var preds := PredictionsOf(resp);
    var sorted := SortDesc(preds);
    var es := CollectDuplicates(GroupAll(sorted), SizeOf(resp), offset).value.0;
    DuplicateNamesExactly(sorted, SizeOf(resp), offset);
    forall l ensures |OfLabel(sorted, l)| == |OfLabel(preds, l)| {
      GroupOfSorted(preds, l);
    }
    NamesCountClasses(NamesOf(es), preds);
  }

  /** A duplicate-free list naming exactly the repeated classes is as long
      as the set of those classes. */
  lemma NamesCountClasses(names: seq<string>, preds: seq<RawDetection>)
    requires Distinct(names)
    requires forall l :: l in names <==> |OfLabel(preds, l)| > 1
    ensures |names| == |DuplicateClasses(preds)|
  {
    assert (set x | x in names) == DuplicateClasses(preds) by {
      forall l | l in names
        ensures l in DuplicateClasses(preds)
      {
        OfLabelMember(preds, l);
        assert OfLabel(preds, l)[0] in preds;
      }
    }
    DistinctCardinality(names);
  }

  /** `duplicates` is the concatenation of the duplicate classes' details,
      so its length is the sum of their counts. */
  lemma DuplicatesFlattenEntries(resp: DetectorResponse, offset: Point)
    requires !DividesByZero(resp)
    ensures var env := Analyse(resp, offset).value;
      && env.duplicates == Flatten(env.duplicateCharacters)
      && |env.duplicates| == SumCounts(env.duplicateCharacters)
  {
    AnalyseParts(resp, offset);
    var es := Analyse(resp, offset).value.duplicateCharacters;
    FlattenLength(es);
  }

  /** With no predictions and a proper image size the envelope is empty
      and carries the default offsets. */
  lemma EmptyPredictionsExample(dialect: Dialect)
    ensures var out := Process(Responded(DetectorResponse(Some(ImageMeta(Some(300.0), Some(150.0))), Some([]), None, None)),
                               None, None, dialect);
      && out.Analysed?
      && out.envelope.totalDetected == 0 && out.envelope.uniqueCharacters == 0
      && out.envelope.duplicateCount == 0 && out.envelope.allPredictions == [] && out.envelope.duplicates == []
      && out.envelope.coordinateTransform.offsetX == 107 && out.envelope.coordinateTransform.offsetY == 197
  {
    assert SortDesc([]) == [];
    assert GroupAll([]) == [];
  }

  /** An image object without a `width` key is tolerated while there is
      nothing to map: the ratio then divides by 1. */
  lemma MissingWidthWithoutPredictions(offset: Point)
    ensures Analyse(DetectorResponse(Some(ImageMeta(None, Some(150.0))), None, None, None), offset).Success?
    ensures Analyse(DetectorResponse(Some(ImageMeta(None, Some(150.0))), None, None, None), offset).value.image.width == 0
  {
    assert SortDesc([]) == [];
    assert GroupAll([]) == [];
  }

  /** The mapper truncates the reported dimensions while the ratio divides
      by them as they are: a width of 0.5 makes the mapper divide by zero
      as soon as there is a prediction, though the ratio 288 / 0.5 is
      fine, and a width of 300.7 is mapped against 300. */
  lemma FractionalWidthExample(d: RawDetection)
    ensures var resp := DetectorResponse(Some(ImageMeta(Some(0.5), Some(150.0))), Some([d]), None, None);
      && ImageOf(resp).width != Some(0.0)
      && SizeOf(resp).width == 0
      && DividesByZero(resp)
    ensures SizeOf(DetectorResponse(Some(ImageMeta(Some(300.7), Some(150.0))), None, None, None)) == Size(300, 150)
  {
  }
}
