/**
 * The thumbnail strip (TimeLineView.kt), restricted to its arithmetic: how
 * many frames are sampled, at which times, which ones are kept, and where each
 * kept frame is drawn. Frame extraction itself is a parameter.
 */
module TimeLine {
  import opened Outcomes
  import opened Graphics
  import opened KotlinNumbers

  /** The minimum number of sampled frames, also the divisor of the crop width. */
  const Threshold: int := 10

  /**
   * `numThumbs`: enough frames of width `frameWidth` to cover the view
   * (`ceil` of the Float quotient), but never fewer than 10. A zero frame width
   * makes the quotient infinite or NaN, which `toInt` turns into `Int.MAX_VALUE`
   * or 0.
   */
  function NumThumbs(viewWidth: int, frameWidth: int): (n: int)
    ensures n >= Threshold
    ensures frameWidth > 0 ==> n * frameWidth >= viewWidth
    ensures frameWidth > 0 && n > Threshold ==> (n - 1) * frameWidth < viewWidth
    ensures frameWidth == 0 && viewWidth > 0 ==> n == IntMax
    ensures frameWidth == 0 && viewWidth <= 0 ==> n == Threshold
  {
    var raw :=
      if frameWidth == 0 then (if viewWidth > 0 then IntMax else if viewWidth == 0 then 0 else IntMin)
      else Ceil(viewWidth as real / frameWidth as real);
    CeilCovers(viewWidth, frameWidth);
    if raw < Threshold then Threshold else raw
  }

  /** The ceiling of `v / f` frames of width `f` cover `v`, and one frame fewer does not. */
  lemma {:induction false} CeilCovers(v: int, f: int)
    ensures f > 0 ==>
      var c := Ceil(v as real / f as real);
      c * f >= v && (c - 1) * f < v
  {
    if f <= 0 {
      return;
    }
    var fr := f as real;
    var q := (v as real) / fr;
    var c := Ceil(q);
    var cr := c as real;
    assert q * fr == v as real;
    MulLessReal(cr - 1.0, q, fr);
    MulAtMostReal(q, cr, fr);
    var below := (c - 1) * f;
    assert below as real == (cr - 1.0) * fr;
    assert (c * f) as real == cr * fr;
    assert (c * f) as real >= v as real;
  }

  lemma MulLessReal(a: real, b: real, k: real)
    requires a < b && 0.0 < k
    ensures a * k < b * k
  {
  }

  lemma MulAtMostReal(a: real, b: real, k: real)
    requires a <= b && 0.0 < k
    ensures a * k <= b * k
  {
  }

  /** `cropWidth`: a tenth of the view width, truncated; it does not depend on how many frames are sampled. */
  function CropWidth(viewWidth: int): (c: int)
    ensures 0 <= viewWidth ==> 0 <= Threshold * c <= viewWidth < Threshold * (c + 1)
    ensures viewWidth < 0 ==> Threshold * (c - 1) < viewWidth <= Threshold * c
  {
    Quot(viewWidth, Threshold)
  }

  /**
   * Finding, as written: the metadata duration (milliseconds, an `Int`) is
   * multiplied by 1000 in `Int` arithmetic before widening to `Long`.
   */
  function VideoLengthAsWritten(durationMs: int): (len: int)
    requires IsInt(durationMs)
    ensures IsInt(len)
    ensures IsInt(durationMs * 1000) ==> len == durationMs * 1000
  {
    WrapInt(durationMs * 1000)
  }

  /** Finding, corrected: the same product computed in `Long`, as the later `Long` arithmetic expects. */
  function VideoLength(durationMs: int): (len: int)
    ensures 0 < durationMs ==> 0 < len
    ensures len == VideoLengthAsWritten(durationMs) <== 0 <= durationMs <= IntMax / 1000
  {
    durationMs * 1000
  }

  /** Finding, as written: a video of 2147484 ms (under 36 minutes) gets a negative length. */
  lemma VideoLengthWrapsForLongVideos()
    ensures VideoLengthAsWritten(2147484) == -2147483296
    ensures VideoLength(2147484) == 2147484000
  {
  }

  /** `interval`: the video length shared out evenly over the frames, truncated. */
  function Interval(videoLength: int, numThumbs: int): (d: int)
    requires numThumbs > 0
    ensures 0 <= videoLength ==> 0 <= d && d * numThumbs <= videoLength
  {
    var d := Quot(videoLength, numThumbs);
    if 0 <= videoLength then
      NonNegativeQuotient(videoLength, numThumbs, d);
      d
    else
      d
  }

  /** Frame `i` is sampled at `i * interval`. */
  function SampleTime(i: int, interval: int): int {
    i * interval
  }

  /** Sample times never decrease along the strip when the video length is not negative. */
  lemma {:induction false} SampleTimesNondecreasing(videoLength: int, numThumbs: int, i: int, j: int)
    requires numThumbs > 0 && 0 <= videoLength && 0 <= i <= j
    ensures SampleTime(i, Interval(videoLength, numThumbs)) <= SampleTime(j, Interval(videoLength, numThumbs))
  {
    var d := Interval(videoLength, numThumbs);
    ScaleWithin(d, i, j);
  }

  /** Every sample time lies inside a video of positive length. */
  lemma {:induction false} SampleTimesWithinVideo(videoLength: int, numThumbs: int, i: int)
    requires numThumbs > 0 && 0 < videoLength && 0 <= i < numThumbs
    ensures 0 <= SampleTime(i, Interval(videoLength, numThumbs)) < videoLength
  {
    var d := Interval(videoLength, numThumbs);
    ScaleWithin(d, i, numThumbs - 1);
    assert d * (numThumbs - 1) == d * numThumbs - d;
  }

  /** Finding, corrected: with the length computed in `Long`, every sample of a non-empty video lies inside it. */
  lemma CorrectedSamplesWithinVideo(durationMs: int, viewWidth: int, frameWidth: int, i: int)
    requires 0 < durationMs
    requires 0 <= i < NumThumbs(viewWidth, frameWidth)
    ensures var len := VideoLength(durationMs);
      0 <= SampleTime(i, Interval(len, NumThumbs(viewWidth, frameWidth))) < len
  {
    SampleTimesWithinVideo(VideoLength(durationMs), NumThumbs(viewWidth, frameWidth), i);
  }

  /** Finding, as written: for that long video the second frame is requested at a negative time. */
  lemma AsWrittenSampleTimeNegative()
    ensures SampleTime(1, Interval(VideoLengthAsWritten(2147484), NumThumbs(1080, 120))) < 0
  {
    assert NumThumbs(1080, 120) == 10 by {
      assert Ceil(1080 as real / 120 as real) == 9;
    }
  }

  /**
   * The sampling loop: frame `i` is requested at its sample time; a missing
   * frame leaves a hole at key `i` and the loop goes on.
   */
  method ExtractFrames(numThumbs: int, interval: int, frameAt: int -> Option<Bitmap>) returns (frames: map<int, Bitmap>)
    ensures forall i :: i in frames <==> 0 <= i < numThumbs && frameAt(SampleTime(i, interval)).Some?
    ensures forall i :: i in frames ==> frames[i] == frameAt(SampleTime(i, interval)).value
  {
    frames := map[];
    var i := 0;
    while i < numThumbs
      invariant 0 <= i || numThumbs <= 0
      invariant forall k :: k in frames <==> 0 <= k < i && k < numThumbs && frameAt(SampleTime(k, interval)).Some?
      invariant forall k :: k in frames ==> frames[k] == frameAt(SampleTime(k, interval)).value
    {
      var bitmap := frameAt(SampleTime(i, interval));
      if bitmap.Some? {
        frames := frames[i := bitmap.value];
      }
      i := i + 1;
    }
  }

  /** One `drawBitmap` call: the frame's key and the x where it is drawn. */
  datatype Draw = Draw(key: int, x: int)

  function DrawnKeys(draws: seq<Draw>): set<int> {
    if draws == [] then {} else {draws[0].key} + DrawnKeys(draws[1..])
  }

  /**
   * What `onDraw` draws from key `i` on, starting at `x`: it looks up only the
   * keys below the number of stored frames, skips missing ones and advances
   * `x` by each drawn frame's width.
   */
  function DrawPlan(frames: map<int, Bitmap>, i: nat, x: int): (draws: seq<Draw>)
    ensures forall k :: 0 <= k < |draws| ==> i <= draws[k].key < |frames| && draws[k].key in frames
    ensures forall k :: 0 <= k < |draws| - 1 ==> draws[k].key < draws[k + 1].key
    ensures draws != [] ==> draws[0].x == x
    ensures forall k :: 0 <= k < |draws| - 1 ==> draws[k + 1].x == draws[k].x + frames[draws[k].key].width
    decreases |frames| - i
  {
    if i >= |frames| then []
    else if i in frames then [Draw(i, x)] + DrawPlan(frames, i + 1, x + frames[i].width)
    else DrawPlan(frames, i + 1, x)
  }

  /** `onDraw`: nothing before the first extraction completes; then the plan above. */
  method OnDraw(frames: Option<map<int, Bitmap>>) returns (draws: seq<Draw>)
    ensures frames.None? ==> draws == []
    ensures frames.Some? ==> draws == DrawPlan(frames.value, 0, 0)
  {
    draws := [];
    if frames.Some? {
      var m := frames.value;
      var x := 0;
      var i := 0;
      while i < |m|
        invariant 0 <= i <= |m|
        invariant draws + DrawPlan(m, i, x) == DrawPlan(m, 0, 0)
      {
        if i in m {
          DrawPlanStep(m, i, x, draws);
          draws := draws + [Draw(i, x)];
          x := x + m[i].width;
        } else {
          assert DrawPlan(m, i, x) == DrawPlan(m, i + 1, x);
        }
        i := i + 1;
      }
    }
  }

  /** Drawing key `i` moves it from the plan onto the draws already made. */
  lemma DrawPlanStep(m: map<int, Bitmap>, i: nat, x: int, draws: seq<Draw>)
    requires i < |m| && i in m
    ensures draws + DrawPlan(m, i, x) == (draws + [Draw(i, x)]) + DrawPlan(m, i + 1, x + m[i].width)
  {
    assert DrawPlan(m, i, x) == [Draw(i, x)] + DrawPlan(m, i + 1, x + m[i].width);
  }

  /** Exactly the stored keys below the number of stored frames are drawn. */
  lemma {:induction false} DrawPlanDrawsPresentKeys(frames: map<int, Bitmap>, i: nat, x: int)
    ensures DrawnKeys(DrawPlan(frames, i, x)) == set k | i <= k < |frames| && k in frames
    decreases |frames| - i
  {
    var draws := DrawPlan(frames, i, x);
    if i >= |frames| {
      assert (set k | i <= k < |frames| && k in frames) == {};
    } else if i in frames {
      var rest := DrawPlan(frames, i + 1, x + frames[i].width);
      DrawPlanDrawsPresentKeys(frames, i + 1, x + frames[i].width);
      assert draws[1..] == rest;
      assert (set k | i <= k < |frames| && k in frames) == {i} + set k | i + 1 <= k < |frames| && k in frames;
    } else {
      DrawPlanDrawsPresentKeys(frames, i + 1, x);
      assert (set k | i <= k < |frames| && k in frames) == set k | i + 1 <= k < |frames| && k in frames;
    }
  }

  /** The keys a fully populated strip of `n` frames would have. */
  function Below(n: nat): (r: set<int>)
    ensures forall k :: k in r <==> 0 <= k < n
  {
    if n == 0 then {} else Below(n - 1) + {n - 1}
  }

  lemma {:induction false} BelowSize(n: nat)
    ensures |Below(n)| == n
  {
    if n > 0 {
      BelowSize(n - 1);
    }
  }

  lemma SubsetSize<T>(a: set<T>, b: set<T>)
    requires a <= b
    ensures |a| <= |b|
  {
    assert b == a + (b - a);
    assert a * (b - a) == {};
  }

  /**
   * A missing frame below the stored count costs more than its own slot: some
   * stored frame then has a key at or above the count and is never drawn.
   */
  lemma {:induction false} HoleHidesAStoredFrame(frames: map<int, Bitmap>, j: int)
    requires 0 <= j < |frames| && j !in frames
    ensures exists k :: k in frames && k !in DrawnKeys(DrawPlan(frames, 0, 0))
  {
    var n := |frames|;
    var outside := frames.Keys - Below(n);
    BelowSize(n);
    assert frames.Keys <= (Below(n) - {j}) + outside;
    SubsetSize(frames.Keys, (Below(n) - {j}) + outside);
    assert |Below(n) - {j}| == n - 1;
    assert |frames.Keys| == n;
    assert outside != {};
    var k :| k in outside;
    DrawPlanDrawsPresentKeys(frames, 0, 0);
    assert k !in DrawnKeys(DrawPlan(frames, 0, 0));
  }

  /** The strip's state: the frames of the last completed extraction, if any. */
  datatype Strip = Strip(frames: Option<map<int, Bitmap>>)

  /**
   * `onSizeChanged` followed by the delivery of the extraction it starts: only
   * a change of width re-extracts, and the new frames replace the old ones
   * wholesale.
   */
  function OnSizeChanged(strip: Strip, w: int, oldW: int, extracted: map<int, Bitmap>): (r: Strip)
    ensures w == oldW ==> r == strip
    ensures w != oldW ==> r.frames == Some(extracted)
  {
    if w != oldW then Strip(Some(extracted)) else strip
  }
}
