/**
 * `get_file_features` of MediaMatch.py: the extension dispatch over the
 * feature extractors, and the frame sampling of `extract_video_features`.
 * The neural-network feature extraction and the video decoder are foreign
 * code; they enter as the functions of an `Extractor`.
 */
module Features {
  import opened Wrappers
  import opened Paths

  /** A feature value: one vector for an image, the list of per-frame vectors for a video. */
  datatype Features<V> = ImageFeatures(vector: V) | VideoFeatures(frames: seq<V>)

  /** The foreign code behind feature extraction, as functions of their inputs. */
  datatype Extractor<V, !Frame> = Extractor(
    // extract_image_features(path); None when the image cannot be decoded
    imageFeatures: string -> Option<V>,
    // int(video.get(cv2.CAP_PROP_FRAME_COUNT))
    frameCount: string -> int,
    // video.set(cv2.CAP_PROP_POS_FRAMES, i) followed by video.read(); None when ret is false
    readFrame: (string, int) -> Option<Frame>,
    // extract_image_features applied to the grey-scale frame
    frameFeatures: Frame -> Option<V>)

  /** `frames_to_sample`. */
  const FramesToSample: int := 5

  /** The values of Python's `range(start, stop, step)` for a non-zero step. */
  function Steps(start: int, stop: int, step: int): seq<int>
    requires step != 0
    decreases if step > 0 then stop - start else start - stop
  {
    if (step > 0 && start < stop) || (step < 0 && start > stop) then [start] + Steps(start + step, stop, step)
    else []
  }

  /** `range(start, stop, step)`; None stands for the ValueError a zero step raises. */
  function PyRange(start: int, stop: int, step: int): Option<seq<int>> {
    if step == 0 then None else Some(Steps(start, stop, step))
  }

  /**
   * The positions `range(0, total_frames, total_frames // 5)` that
   * `extract_video_features` seeks to; None when `range` raises and the
   * handler returns None. For the positive divisor 5, Dafny's `/` is Python's
   * floor division `//`, negative frame counts included.
   */
  function SamplePositions(total: int): Option<seq<int>> {
    PyRange(0, total, total / FramesToSample)
  }

  /** The features of the readable frames among `positions`, in order; unreadable frames and frames without features are skipped. */
  function CollectFrames<V, Frame>(x: Extractor<V, Frame>, path: string, positions: seq<int>): seq<V> {
    if positions == [] then []
    else
      var last := match x.readFrame(path, positions[|positions| - 1])
        case None => []
        case Some(frame) => (match x.frameFeatures(frame) case None => [] case Some(v) => [v]);
      CollectFrames(x, path, positions[..|positions| - 1]) + last
  }

  /** The value `extract_video_features` returns. */
  function VideoFeatureList<V, Frame>(x: Extractor<V, Frame>, path: string): Option<seq<V>> {
    match SamplePositions(x.frameCount(path))
    case None => None
    case Some(positions) => Some(CollectFrames(x, path, positions))
  }

  /** `extract_video_features`: the sampling loop. */
  method ExtractVideoFeatures<V, Frame>(x: Extractor<V, Frame>, path: string) returns (r: Option<seq<V>>)
    ensures r == VideoFeatureList(x, path)
  {
    var total := x.frameCount(path);
    var interval := total / FramesToSample;
    if interval == 0 {
      // range() raises ValueError; the exception handler returns None
      return None;
    }
    var positions := Steps(0, total, interval);
    var features: seq<V> := [];
    var n := 0;
    while n < |positions|
      invariant 0 <= n <= |positions|
      invariant features == CollectFrames(x, path, positions[..n])
    {
      assert positions[..n + 1][..n] == positions[..n];
      var frame := x.readFrame(path, positions[n]);
      if frame.Some? {
        var frameFeatures := x.frameFeatures(frame.value);
        if frameFeatures.Some? {
          features := features + [frameFeatures.value];
        }
      }
      n := n + 1;
    }
    assert positions[..|positions|] == positions;
    return Some(features);
  }

  /** An ascending Python range: `start, start + step, ...`, all below `stop`, and the next one would not be. */
  lemma {:induction false} AscendingSteps(start: int, stop: int, step: int)
    requires step > 0
    ensures var s := Steps(start, stop, step);
      && (forall j :: 0 <= j < |s| ==> s[j] == start + j * step && s[j] < stop)
      && start + |s| * step >= stop
      && (s != [] ==> start + (|s| - 1) * step < stop)
    decreases stop - start
  {
    if start < stop {
      var rest := Steps(start + step, stop, step);
      AscendingSteps(start + step, stop, step);
      var s := Steps(start, stop, step);
      assert s == [start] + rest;
      forall j | 0 <= j < |s|
        ensures s[j] == start + j * step
      {
        if j > 0 {
          assert s[j] == rest[j - 1];
          assert (j - 1) * step + step == j * step;
        }
      }
      assert start + step + |rest| * step == start + |s| * step;
    }
  }

  lemma MulMonotone(a: int, b: int, k: int)
    requires a <= b && k >= 0
    ensures a * k <= b * k
  {
  }

  /** The sampling fails exactly for a frame count of 0 to 4, where the step `total // 5` is 0. */
  lemma SamplingFailsIffFewFrames(total: int)
    ensures SamplePositions(total).None? <==> 0 <= total < FramesToSample
  {
  }

  /**
   * For a video of at least five frames the positions are `0, k, 2k, ...`
   * with `k = total // 5`, all below `total`; there are between 5 and 9 of
   * them (9 for a nine-frame video, where `k` is 1).
   */
  lemma SampledPositionsShape(total: int)
    requires total >= FramesToSample
    ensures SamplePositions(total).Some?
    ensures var positions := SamplePositions(total).value; var k := total / FramesToSample;
      && (forall j :: 0 <= j < |positions| ==> positions[j] == j * k && 0 <= positions[j] < total)
      && 5 <= |positions| <= 9
  {
    var k := total / FramesToSample;
    var positions := Steps(0, total, k);
    AscendingSteps(0, total, k);
    var n := |positions|;
    assert 5 * k <= total <= 5 * k + 4;
    if n <= 4 {
      MulMonotone(n, 4, k);
      assert false;
    }
    if n >= 10 {
      MulMonotone(9, n - 1, k);
      assert false;
    }
    forall j | 0 <= j < n
      ensures 0 <= positions[j]
    {
      MulMonotone(0, j, k);
    }
  }

  /** A nine-frame video is sampled at nine positions, not five. */
  lemma NineFramesGiveNineSamples()
    ensures SamplePositions(9) == Some([0, 1, 2, 3, 4, 5, 6, 7, 8])
  {
    SampledPositionsShape(9);
    AscendingSteps(0, 9, 1);
    var positions := SamplePositions(9).value;
    assert |positions| == 9;
    forall j | 0 <= j < 9
      ensures positions[j] == j
    {
      assert positions[j] == j * 1;
    }
    assert positions == [0, 1, 2, 3, 4, 5, 6, 7, 8];
  }

  /** A negative frame count gives a negative step: the positions start at 0 and descend, and -1 gives 0 alone. */
  lemma NegativeCountSamplesDownward(total: int)
    requires total < 0
    ensures SamplePositions(total).Some?
    ensures var positions := SamplePositions(total).value;
      && |positions| >= 1 && positions[0] == 0
      && (|positions| >= 2 ==> positions[1] == total / FramesToSample < 0)
    ensures SamplePositions(-1) == Some([0])
  {
    var k := total / FramesToSample;
    assert k < 0;
    assert Steps(0, total, k) == [0] + Steps(k, total, k);
    if k > total {
      assert Steps(k, total, k) == [k] + Steps(k + k, total, k);
    }
    assert -1 / FramesToSample == -1;
    assert Steps(-1, -1, -1) == [];
    assert Steps(0, -1, -1) == [0] + Steps(-1, -1, -1) == [0];
  }

  /** At most one feature vector per sampled position is kept. */
  lemma {:induction false} CollectFramesBound<V, Frame>(x: Extractor<V, Frame>, path: string, positions: seq<int>)
    ensures |CollectFrames(x, path, positions)| <= |positions|
  {
    if positions != [] {
      CollectFramesBound(x, path, positions[..|positions| - 1]);
    }
  }

  /** A video none of whose sampled frames can be read still yields a list, the empty one, and not None. */
  lemma {:induction false} UnreadableFramesGiveEmptyList<V, Frame>(x: Extractor<V, Frame>, path: string, positions: seq<int>)
    requires forall j :: 0 <= j < |positions| ==> x.readFrame(path, positions[j]).None?
    ensures CollectFrames(x, path, positions) == []
  {
    if positions != [] {
      var init := positions[..|positions| - 1];
      assert forall j :: 0 <= j < |init| ==> init[j] == positions[j];
      UnreadableFramesGiveEmptyList(x, path, init);
    }
  }

  /** Every readable sampled frame with features contributes its vector, in order of position. */
  lemma {:induction false} AllSampledFramesKept<V, Frame>(x: Extractor<V, Frame>, path: string, positions: seq<int>)
    requires forall j :: 0 <= j < |positions| ==>
      x.readFrame(path, positions[j]).Some? && x.frameFeatures(x.readFrame(path, positions[j]).value).Some?
    ensures var r := CollectFrames(x, path, positions);
      && |r| == |positions|
      && forall j :: 0 <= j < |positions| ==> r[j] == x.frameFeatures(x.readFrame(path, positions[j]).value).value
  {
    if positions != [] {
      var init := positions[..|positions| - 1];
      assert forall j :: 0 <= j < |init| ==> init[j] == positions[j];
      AllSampledFramesKept(x, path, init);
    }
  }

  // ---------------------------------------------------------------- frame features as written

  /**
   * The extractor as `extract_video_features` is written: it hands the
   * grey-scale frame, a PIL image, to `extract_image_features`, whose
   * `Image.open` expects a path or a file, so it raises and the handler
   * returns None for every frame.
   */
  function AsWrittenExtractor<V, Frame>(x: Extractor<V, Frame>): (r: Extractor<V, Frame>)
    ensures r.imageFeatures == x.imageFeatures && r.frameCount == x.frameCount && r.readFrame == x.readFrame
  {
    x.(frameFeatures := (f: Frame) => None)
  }

  /** As written, no frame contributes a vector. */
  lemma {:induction false} NoFrameFeaturesAsWritten<V, Frame>(x: Extractor<V, Frame>, path: string, positions: seq<int>)
    ensures CollectFrames(AsWrittenExtractor(x), path, positions) == []
  {
    if positions != [] {
      NoFrameFeaturesAsWritten(x, path, positions[..|positions| - 1]);
    }
  }

  /** As written, every video either fails (under five frames) or gives the empty feature list. */
  lemma VideoFeaturesEmptyAsWritten<V, Frame>(x: Extractor<V, Frame>, path: string)
    ensures VideoFeatureList(AsWrittenExtractor(x), path) ==
      if 0 <= x.frameCount(path) < FramesToSample then None else Some([])
  {
    SamplingFailsIffFewFrames(x.frameCount(path));
    var positions := SamplePositions(x.frameCount(path));
    if positions.Some? {
      NoFrameFeaturesAsWritten(x, path, positions.value);
    }
  }

  /**
   * `get_file_features`: image features for an image suffix, the video
   * feature list for a video suffix (the image test first), None otherwise.
   */
  function FileFeatures<V, Frame>(x: Extractor<V, Frame>, path: string): (r: Option<Features<V>>)
    ensures !EndsWithAny(Lower(path), MediaExtensions) ==> r == None
    ensures r.Some? && r.value.ImageFeatures? <==>
              EndsWithAny(Lower(path), ImageExtensions) && x.imageFeatures(path).Some?
    ensures r.Some? && r.value.VideoFeatures? <==>
              EndsWithAny(Lower(path), VideoExtensions) && !(0 <= x.frameCount(path) < FramesToSample)
  {
    SamplingFailsIffFewFrames(x.frameCount(path));
    match KindOf(path)
    case Image => (match x.imageFeatures(path) case None => None case Some(v) => Some(ImageFeatures(v)))
    case Video => (match VideoFeatureList(x, path) case None => None case Some(frames) => Some(VideoFeatures(frames)))
    case Unsupported => None
  }

  /** `get_file_features` as the scan calls it. */
  method GetFileFeatures<V, Frame>(x: Extractor<V, Frame>, path: string) returns (r: Option<Features<V>>)
    ensures r == FileFeatures(x, path)
  {
    match KindOf(path)
    case Image =>
      var v := x.imageFeatures(path);
      r := if v.Some? then Some(ImageFeatures(v.value)) else None;
    case Video =>
      var frames := ExtractVideoFeatures(x, path);
      r := if frames.Some? then Some(VideoFeatures(frames.value)) else None;
    case Unsupported =>
      r := None;
  }
}
