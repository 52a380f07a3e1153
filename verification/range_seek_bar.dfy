/**
 * The dual-thumb range selector (RangeSeekBarView.kt) as pure state
 * transitions. Each touch event yields the new selector state, whether the
 * event was consumed, and the range events the listeners receive.
 *
 * Geometry: the handles move over pixels `[0, pixelRangeMax]` with
 * `pixelRangeMax = viewWidth - thumbWidth`; values are percentages.
 */
module RangeSeekBar {
  import opened Outcomes
  import opened Graphics
  import opened Thumbs

  const PixelRangeMin: real := 0.0
  const ScaleRangeMax: real := 100.0

  datatype EventKind = Create | Seek | SeekStart | SeekStop

  /** One call of an `OnRangeSeekBarEvent` callback. */
  datatype RangeEvent = RangeEvent(kind: EventKind, index: int, value: real)

  datatype SeekBar = SeekBar(
    thumbs: seq<Thumb>,
    thumbWidth: real,
    maxWidth: real,
    viewWidth: int,
    pixelRangeMax: real,
    firstRun: bool,
    currentThumb: int)

  /** A selector state together with the events a step emitted, in order. */
  datatype Step = Step(bar: SeekBar, events: seq<RangeEvent>)

  datatype Action = Down | Up | Move | Other

  datatype Touch = Touch(action: Action, x: real)

  /** What `onTouchEvent` produced: the new state, its Boolean answer, the events. */
  datatype Handled = Handled(bar: SeekBar, consumed: bool, events: seq<RangeEvent>)

  /**
   * How the max-span guard of a leftward LEFT drag is read: as the source
   * writes it, or as the span it evidently means to bound.
   */
  datatype GuardReading = AsWritten | Intended

  predicate TwoThumbs(ts: seq<Thumb>) {
    |ts| == 2 && ts[Left].index == Left && ts[Right].index == Right
  }

  predicate WellFormed(s: SeekBar) {
    TwoThumbs(s.thumbs) && -1 <= s.currentThumb <= 1
  }

  /** Both handle images have the selector's thumb width. */
  predicate UniformWidth(s: SeekBar)
    requires TwoThumbs(s.thumbs)
  {
    && WidthBitmap(s.thumbs[Left]) == WidthBitmap(s.thumbs[Right])
    && s.thumbWidth == WidthBitmap(s.thumbs[Left]) as real
  }

  /** The layout invariant: LEFT starts at or after 0, never overlaps RIGHT, RIGHT ends in range. */
  predicate Ordered(s: SeekBar)
    requires TwoThumbs(s.thumbs)
  {
    && PixelRangeMin <= s.thumbs[Left].pos
    && s.thumbs[Left].pos + s.thumbWidth <= s.thumbs[Right].pos
    && s.thumbs[Right].pos <= s.pixelRangeMax
  }

  function Span(s: SeekBar): real
    requires TwoThumbs(s.thumbs)
  {
    s.thumbs[Right].pos - s.thumbs[Left].pos
  }

  // ---------------------------------------------------------------- conversions

  /**
   * `scaleToPixel`: the LEFT handle's left edge runs over `[0, pixelRangeMax - thumbWidth]`
   * and the RIGHT handle's over `[thumbWidth, pixelRangeMax]`, each linearly in the percentage.
   */
  function ScaleToPixel(pixelRangeMax: real, thumbWidth: real, index: int, scale: real): (px: real)
    ensures index == Left ==> px == scale * (pixelRangeMax - thumbWidth) / 100.0
    ensures index != Left ==> px == thumbWidth + scale * (pixelRangeMax - thumbWidth) / 100.0
  {
    var px := scale * pixelRangeMax / 100.0;
    if index == Left then
      px - scale * thumbWidth / 100.0
    else
      px + (100.0 - scale) * thumbWidth / 100.0
  }

  /**
   * `pixelToScale`, in closed form. It is affine in the pixel, but its slope is
   * `100 * (pixelRangeMax + thumbWidth) / pixelRangeMax^2`, not the reciprocal
   * of `ScaleToPixel`'s slope.
   */
  function PixelToScale(pixelRangeMax: real, thumbWidth: real, index: int, pixel: real): (scale: real)
    requires pixelRangeMax != 0.0
    ensures index == Left ==>
      scale * pixelRangeMax * pixelRangeMax == 100.0 * pixel * (pixelRangeMax + thumbWidth)
    ensures index != Left ==>
      scale * pixelRangeMax * pixelRangeMax == 100.0 * (pixel * (pixelRangeMax + thumbWidth) - thumbWidth * pixelRangeMax)
  {
    var scale := pixel * 100.0 / pixelRangeMax;
    if index == Left then
      var pxThumb := scale * thumbWidth / 100.0;
      scale + pxThumb * 100.0 / pixelRangeMax
    else
      var pxThumb := (100.0 - scale) * thumbWidth / 100.0;
      scale - pxThumb * 100.0 / pixelRangeMax
  }

  lemma MulMonotoneReal(a: real, b: real, c: real)
    requires a <= b && 0.0 <= c
    ensures a * c <= b * c
  {
  }

  lemma CancelPositive(a: real, b: real, k: real)
    requires 0.0 < k && a * k <= b * k
    ensures a <= b
  {
  }

  lemma PositiveSquare(p: real)
    requires 0.0 < p
    ensures 0.0 < p * p
  {
  }

  /** A value `v` with `v * whole == 100 * part` is a percentage when `0 <= part <= whole`. */
  lemma PercentOfShare(v: real, part: real, whole: real)
    requires 0.0 < whole && 0.0 <= part <= whole && v * whole == 100.0 * part
    ensures 0.0 <= v <= 100.0
  {
    assert 0.0 * whole == 0.0;
    MulMonotoneReal(part, whole, 100.0);
    CancelPositive(0.0, v, whole);
    CancelPositive(v, 100.0, whole);
  }

  lemma LeftPercentBounds(p: real, w: real, pos: real, v: real)
    requires 0.0 < p && 0.0 <= w && 0.0 <= pos <= p - w
    requires v * p * p == 100.0 * pos * (p + w)
    ensures 0.0 <= v <= 100.0
  {
    MulMonotoneReal(0.0, pos, p + w);
    MulMonotoneReal(pos, p - w, p + w);
    assert (p - w) * (p + w) == p * p - w * w;
    PositiveSquare(p);
    MulMonotoneReal(0.0, w, w);
    assert 0.0 * w == 0.0;
    assert v * (p * p) == 100.0 * (pos * (p + w));
    PercentOfShare(v, pos * (p + w), p * p);
  }

  lemma RightPercentBounds(p: real, w: real, pos: real, v: real)
    requires 0.0 < p && 0.0 <= w && w <= pos <= p
    requires v * p * p == 100.0 * (pos * (p + w) - w * p)
    ensures 0.0 <= v <= 100.0
  {
    MulMonotoneReal(w, pos, p + w);
    MulMonotoneReal(pos, p, p + w);
    MulMonotoneReal(0.0, w, w);
    assert 0.0 * w == 0.0;
    assert w * (p + w) - w * p == w * w;
    assert 0.0 <= w * (p + w) - w * p;
    assert p * (p + w) - w * p == p * p;
    PositiveSquare(p);
    assert 0.0 <= pos * (p + w) - w * p;
    assert pos * (p + w) - w * p <= p * p;
    assert v * (p * p) == 100.0 * (pos * (p + w) - w * p);
    PercentOfShare(v, pos * (p + w) - w * p, p * p);
  }

  /**
   * From a layout that satisfies the invariant, `pixelToScale` reports a
   * percentage within `[0, 100]` for either thumb.
   */
  lemma OrderedPercent(s: SeekBar, index: int)
    requires TwoThumbs(s.thumbs) && Ordered(s) && 0.0 < s.pixelRangeMax && 0.0 <= s.thumbWidth
    requires 0 <= index <= 1
    ensures 0.0 <= PixelToScale(s.pixelRangeMax, s.thumbWidth, index, s.thumbs[index].pos) <= ScaleRangeMax
  {
    var p, w, pos := s.pixelRangeMax, s.thumbWidth, s.thumbs[index].pos;
    var v := PixelToScale(p, w, index, pos);
    if index == Left {
      LeftPercentBounds(p, w, pos, v);
    } else {
      RightPercentBounds(p, w, pos, v);
    }
  }

  /** At the ends of the range both conversions agree with the selector's geometry. */
  lemma ConversionEndpoints(pixelRangeMax: real, thumbWidth: real)
    requires pixelRangeMax != 0.0
    ensures ScaleToPixel(pixelRangeMax, thumbWidth, Left, 0.0) == 0.0
    ensures ScaleToPixel(pixelRangeMax, thumbWidth, Right, ScaleRangeMax) == pixelRangeMax
    ensures PixelToScale(pixelRangeMax, thumbWidth, Left, 0.0) == 0.0
    ensures PixelToScale(pixelRangeMax, thumbWidth, Right, pixelRangeMax) == ScaleRangeMax
  {
    RightEndpoint(pixelRangeMax, thumbWidth, PixelToScale(pixelRangeMax, thumbWidth, Right, pixelRangeMax));
  }

  /** The one percentage that `pixelToScale`'s RIGHT form gives the end of the range. */
  lemma RightEndpoint(p: real, w: real, r: real)
    requires p != 0.0
    requires r * p * p == 100.0 * (p * (p + w) - w * p)
    ensures r == 100.0
  {
    assert p * (p + w) == p * p + p * w;
    assert w * p == p * w;
    assert r * p * p == r * (p * p);
    assert (r - 100.0) * (p * p) == 0.0;
    ZeroProduct(p, p);
    ZeroProduct(r - 100.0, p * p);
  }

  /** Real products vanish exactly when a factor does. */
  lemma ZeroProduct(a: real, b: real)
    ensures a * b == 0.0 <==> a == 0.0 || b == 0.0
  {
  }

  /**
   * A LEFT value converted to a pixel and back is scaled by `1 - (W/P)^2`:
   * the round trip is exact only at value 0 or when the handles have no width.
   */
  lemma LeftRoundTrip(pixelRangeMax: real, thumbWidth: real, scale: real)
    requires pixelRangeMax != 0.0
    ensures var r := PixelToScale(pixelRangeMax, thumbWidth, Left, ScaleToPixel(pixelRangeMax, thumbWidth, Left, scale));
      && r * pixelRangeMax * pixelRangeMax == scale * (pixelRangeMax * pixelRangeMax - thumbWidth * thumbWidth)
      && (r == scale <==> scale == 0.0 || thumbWidth == 0.0)
  {
    var p, w := pixelRangeMax, thumbWidth;
    var px := ScaleToPixel(p, w, Left, scale);
    var r := PixelToScale(p, w, Left, px);
    var pp := p * p;
    ZeroProduct(p, p);
    assert r * p * p == 100.0 * px * (p + w);
    assert 100.0 * px == scale * (p - w);
    assert r * pp == scale * (pp - w * w);
    assert r * pp - scale * pp == -(scale * (w * w));
    ZeroProduct(scale, w * w);
    ZeroProduct(w, w);
    if r == scale {
      assert scale * (w * w) == 0.0;
    } else {
      assert (r - scale) * pp != 0.0 by { ZeroProduct(r - scale, pp); }
    }
  }

  /**
   * A RIGHT value converted to a pixel and back gains `(100 - value) * (W/P)^2`:
   * the round trip is exact only at value 100 or when the handles have no width.
   */
  lemma RightRoundTrip(pixelRangeMax: real, thumbWidth: real, scale: real)
    requires pixelRangeMax != 0.0
    ensures var r := PixelToScale(pixelRangeMax, thumbWidth, Right, ScaleToPixel(pixelRangeMax, thumbWidth, Right, scale));
      && r * pixelRangeMax * pixelRangeMax == scale * pixelRangeMax * pixelRangeMax + (100.0 - scale) * thumbWidth * thumbWidth
      && (r == scale <==> scale == 100.0 || thumbWidth == 0.0)
  {
    var p, w := pixelRangeMax, thumbWidth;
    var px := ScaleToPixel(p, w, Right, scale);
    var r := PixelToScale(p, w, Right, px);
    var pp := p * p;
    ZeroProduct(p, p);
    assert r * p * p == 100.0 * (px * (p + w) - w * p);
    assert 100.0 * px == 100.0 * w + scale * (p - w);
    assert 100.0 * (px * (p + w)) == (100.0 * w + scale * (p - w)) * (p + w);
    assert r * pp == scale * pp + (100.0 - scale) * (w * w);
    assert r * pp - scale * pp == (100.0 - scale) * (w * w);
    ZeroProduct(100.0 - scale, w * w);
    ZeroProduct(w, w);
    if r == scale {
      assert (100.0 - scale) * (w * w) == 0.0;
    } else {
      assert (r - scale) * pp != 0.0 by { ZeroProduct(r - scale, pp); }
    }
  }

  // ---------------------------------------------------------------- construction and layout

  /** `init()`: the two thumbs, the handle size read from the LEFT image, first run pending. */
  function Init(leftHandle: Option<Bitmap>, rightHandle: Option<Bitmap>): (s: SeekBar)
    ensures WellFormed(s) && s.firstRun && s.currentThumb == Left
    ensures s.thumbWidth == (if leftHandle.Some? then leftHandle.value.width else 0) as real
    ensures s.thumbs[Left].pos == 0.0 && s.thumbs[Right].pos == 0.0
  {
    var ts := InitThumbs(leftHandle, rightHandle);
    SeekBar(ts, GetWidthBitmap(ts) as real, 0.0, 0, 0.0, true, Left)
  }

  /**
   * `onMeasure`: fixes the pixel range; on the first run places the thumbs at
   * values 0 and 100, at the two ends of the range, and announces the current
   * thumb with a create event. Later measures move nothing.
   */
  function Measure(s: SeekBar, viewWidth: int): (r: Result<Step>)
    requires WellFormed(s)
    ensures r.Failure? <==> s.firstRun && s.currentThumb == -1
    ensures r.Success? ==> WellFormed(r.value.bar) && !r.value.bar.firstRun
    ensures r.Success? ==> r.value.bar.pixelRangeMax == viewWidth as real - s.thumbWidth
    ensures r.Success? && !s.firstRun ==> r.value.bar.thumbs == s.thumbs && r.value.events == []
    ensures r.Success? && s.firstRun ==>
      && r.value.bar.thumbs[Left].value == 0.0 && r.value.bar.thumbs[Right].value == ScaleRangeMax
      && r.value.bar.thumbs[Left].pos == 0.0 && r.value.bar.thumbs[Right].pos == r.value.bar.pixelRangeMax
      && r.value.events == [RangeEvent(Create, s.currentThumb, r.value.bar.thumbs[s.currentThumb].value)]
  {
    var pixelRangeMax := viewWidth as real - s.thumbWidth;
    var s1 := s.(viewWidth := viewWidth, pixelRangeMax := pixelRangeMax);
    if !s.firstRun then
      Success(Step(s1, []))
    else if s.currentThumb == -1 then
      Failure(IndexOutOfBounds)
    else
      var placed := seq(2, i requires 0 <= i < 2 =>
        s.thumbs[i].(value := ScaleRangeMax * i as real, pos := pixelRangeMax * i as real));
      var i := s.currentThumb;
      Success(Step(s1.(thumbs := placed, firstRun := false), [RangeEvent(Create, i, placed[i].value)]))
  }

  /**
   * `setThumbValue`: stores the value exactly and derives the position from it;
   * no listener hears of it.
   */
  function SetThumbValue(s: SeekBar, index: int, value: int): (r: SeekBar)
    requires TwoThumbs(s.thumbs) && 0 <= index <= 1
    ensures TwoThumbs(r.thumbs)
    ensures r.thumbs[index].value == value as real
    ensures r.thumbs[index].pos == ScaleToPixel(s.pixelRangeMax, s.thumbWidth, index, value as real)
    ensures r.thumbs[1 - index] == s.thumbs[1 - index]
    ensures r.thumbs[index].lastTouchX == s.thumbs[index].lastTouchX && r.thumbs[index].bitmap == s.thumbs[index].bitmap
    ensures r.(thumbs := s.thumbs) == s
  {
    var v := value as real;
    s.(thumbs := s.thumbs[index := s.thumbs[index].(value := v, pos := ScaleToPixel(s.pixelRangeMax, s.thumbWidth, index, v))])
  }

  /**
   * `setThumbPos`: stores the position, derives the value from it and fires
   * exactly one seek event carrying that value.
   */
  function SetThumbPos(s: SeekBar, index: int, pos: real): (r: Step)
    requires TwoThumbs(s.thumbs) && 0 <= index <= 1 && s.pixelRangeMax != 0.0
    ensures TwoThumbs(r.bar.thumbs)
    ensures r.bar.thumbs[index].pos == pos
    ensures r.bar.thumbs[index].value == PixelToScale(s.pixelRangeMax, s.thumbWidth, index, pos)
    ensures r.bar.thumbs[1 - index] == s.thumbs[1 - index]
    ensures r.bar.thumbs[index].lastTouchX == s.thumbs[index].lastTouchX && r.bar.thumbs[index].bitmap == s.thumbs[index].bitmap
    ensures r.bar.(thumbs := s.thumbs) == s
    ensures r.events == [RangeEvent(Seek, index, r.bar.thumbs[index].value)]
  {
    var v := PixelToScale(s.pixelRangeMax, s.thumbWidth, index, pos);
    var bar := s.(thumbs := s.thumbs[index := s.thumbs[index].(pos := pos, value := v)]);
    Step(bar, [RangeEvent(Seek, index, v)])
  }

  /**
   * `initMaxWidth`: the span cap becomes the current pixel distance between the
   * thumbs, then a stop event is fired for LEFT and for RIGHT.
   */
  function InitMaxWidth(s: SeekBar): (r: Step)
    requires TwoThumbs(s.thumbs)
    ensures r.bar.maxWidth == Span(s)
    ensures r.bar.(maxWidth := s.maxWidth) == s
    ensures r.events == [RangeEvent(SeekStop, Left, s.thumbs[Left].value), RangeEvent(SeekStop, Right, s.thumbs[Right].value)]
  {
    Step(s.(maxWidth := s.thumbs[Right].pos - s.thumbs[Left].pos),
         [RangeEvent(SeekStop, Left, s.thumbs[Left].value), RangeEvent(SeekStop, Right, s.thumbs[Right].value)])
  }

  // ---------------------------------------------------------------- hit testing

  /** The touch zone of a thumb: from its position to its position plus the handle width. */
  predicate InZone(t: Thumb, thumbWidth: real, x: real) {
    t.pos <= x <= t.pos + thumbWidth
  }

  /**
   * `getClosestThumb`: scanning the thumbs in order, the last one whose zone
   * holds `x` wins; -1 when none does.
   */
  function ClosestThumb(ts: seq<Thumb>, thumbWidth: real, x: real): (c: int)
    requires forall j :: 0 <= j < |ts| ==> ts[j].index == j
    ensures -1 <= c < |ts|
    ensures c == -1 <==> forall j :: 0 <= j < |ts| ==> !InZone(ts[j], thumbWidth, x)
    ensures c != -1 ==> InZone(ts[c], thumbWidth, x) && forall j :: c < j < |ts| ==> !InZone(ts[j], thumbWidth, x)
    decreases |ts|
  {
    if |ts| == 0 then -1
    else if InZone(ts[|ts| - 1], thumbWidth, x) then ts[|ts| - 1].index
    else ClosestThumb(ts[..|ts| - 1], thumbWidth, x)
  }

  /** With two thumbs: RIGHT wins whenever its zone holds the touch, LEFT only when RIGHT's does not. */
  lemma ClosestOfTwo(s: SeekBar, x: real)
    requires TwoThumbs(s.thumbs)
    ensures var c := ClosestThumb(s.thumbs, s.thumbWidth, x);
      && (c == Right <==> InZone(s.thumbs[Right], s.thumbWidth, x))
      && (c == Left <==> InZone(s.thumbs[Left], s.thumbWidth, x) && !InZone(s.thumbs[Right], s.thumbWidth, x))
      && (c == -1 <==> !InZone(s.thumbs[Left], s.thumbWidth, x) && !InZone(s.thumbs[Right], s.thumbWidth, x))
  {
  }

  // ---------------------------------------------------------------- dragging

  /** The guard of the max-span rule for a LEFT thumb dragged leftward by `dx`. */
  predicate LeftwardGuard(g: GuardReading, leftPos: real, rightPos: real, dx: real, maxWidth: real) {
    match g
    case AsWritten => rightPos + dx - leftPos > maxWidth
    case Intended => rightPos - (leftPos + dx) > maxWidth
  }

  /**
   * `checkPositionThumb`: when a drag that widens the selection would exceed the
   * span cap, the thumb that is not being dragged is pulled along so that it
   * sits exactly `maxWidth` from the dragged thumb's new position. The dragged
   * thumb itself is left alone.
   */
  function CheckPositionThumb(s: SeekBar, dx: real, isLeftMove: bool, g: GuardReading): (r: Step)
    requires TwoThumbs(s.thumbs) && s.pixelRangeMax != 0.0
    ensures TwoThumbs(r.bar.thumbs)
    ensures r.bar.(thumbs := s.thumbs) == s
    ensures isLeftMove ==> r.bar.thumbs[Left] == s.thumbs[Left]
    ensures !isLeftMove ==> r.bar.thumbs[Right] == s.thumbs[Right]
    ensures r.events == [] <==> r.bar == s
    ensures isLeftMove && r.events != [] ==>
      && dx < 0.0 && LeftwardGuard(g, s.thumbs[Left].pos, s.thumbs[Right].pos, dx, s.maxWidth)
      && r.bar.thumbs[Right].pos == s.thumbs[Left].pos + dx + s.maxWidth
      && r.events == [RangeEvent(Seek, Right, r.bar.thumbs[Right].value)]
    ensures !isLeftMove && r.events != [] ==>
      && dx > 0.0 && s.thumbs[Right].pos + dx - s.thumbs[Left].pos > s.maxWidth
      && r.bar.thumbs[Left].pos == s.thumbs[Right].pos + dx - s.maxWidth
      && r.events == [RangeEvent(Seek, Left, r.bar.thumbs[Left].value)]
    ensures isLeftMove && dx < 0.0 && LeftwardGuard(g, s.thumbs[Left].pos, s.thumbs[Right].pos, dx, s.maxWidth) ==> r.events != []
    ensures !isLeftMove && dx > 0.0 && s.thumbs[Right].pos + dx - s.thumbs[Left].pos > s.maxWidth ==> r.events != []
  {
    var left, right := s.thumbs[Left], s.thumbs[Right];
    if isLeftMove && dx < 0.0 then
      if LeftwardGuard(g, left.pos, right.pos, dx, s.maxWidth) then
        SetThumbPos(s, Right, left.pos + dx + s.maxWidth)
      else
        Step(s, [])
    else if !isLeftMove && 0.0 < dx then
      if right.pos + dx - left.pos > s.maxWidth then
        SetThumbPos(s, Left, right.pos + dx - s.maxWidth)
      else
        Step(s, [])
    else
      Step(s, [])
  }

  /** A seek event that reports the percentage of its thumb's position in `s`. */
  predicate ReportsPosition(s: SeekBar, e: RangeEvent)
    requires TwoThumbs(s.thumbs) && s.pixelRangeMax != 0.0
  {
    && e.kind == Seek && 0 <= e.index <= 1
    && e.value == PixelToScale(s.pixelRangeMax, s.thumbWidth, e.index, s.thumbs[e.index].pos)
  }

  /** Where the dragged thumb would land if nothing clamped it. */
  function Candidate(s: SeekBar, x: real): real
    requires WellFormed(s) && s.currentThumb != -1
  {
    var m := s.thumbs[s.currentThumb];
    m.pos + (x - m.lastTouchX)
  }

  /** The drag takes neither the inner nor the outer clamp. */
  predicate FreeMove(s: SeekBar, x: real)
    requires WellFormed(s) && s.currentThumb != -1
  {
    var newX := Candidate(s, x);
    if s.currentThumb == Left then
      newX + WidthBitmap(s.thumbs[Left]) as real < s.thumbs[Right].pos && PixelRangeMin < newX
    else
      s.thumbs[Left].pos + WidthBitmap(s.thumbs[Left]) as real < newX && newX < s.pixelRangeMax
  }

  /**
   * ACTION_MOVE with a thumb selected: the dragged thumb is clamped against its
   * neighbour first, then against the outer edge of the range; otherwise the
   * max-span rule runs and the thumb moves by `dx` and remembers the touch.
   * Every outcome ends in `setThumbPos` for the dragged thumb.
   */
  function MoveStep(s: SeekBar, x: real, g: GuardReading): (r: Step)
    requires WellFormed(s) && s.currentThumb != -1 && s.pixelRangeMax != 0.0
    ensures WellFormed(r.bar)
    ensures r.bar.(thumbs := s.thumbs) == s
  {
    var i := s.currentThumb;
    var m := s.thumbs[i];
    var o := s.thumbs[1 - i];
    var dx := x - m.lastTouchX;
    var newX := m.pos + dx;
    if i == Left then
      if newX + WidthBitmap(m) as real >= o.pos then
        SetThumbPos(s, i, o.pos - WidthBitmap(m) as real)
      else if newX <= PixelRangeMin then
        SetThumbPos(s, i, PixelRangeMin)
      else
        var c := CheckPositionThumb(s, dx, true, g);
        var f := SetThumbPos(c.bar.(thumbs := c.bar.thumbs[i := m.(lastTouchX := x)]), i, m.pos + dx);
        Step(f.bar, c.events + f.events)
    else
      if newX <= o.pos + WidthBitmap(o) as real then
        SetThumbPos(s, i, o.pos + WidthBitmap(m) as real)
      else if newX >= s.pixelRangeMax then
        SetThumbPos(s, i, s.pixelRangeMax)
      else
        var c := CheckPositionThumb(s, dx, false, g);
        var f := SetThumbPos(c.bar.(thumbs := c.bar.thumbs[i := m.(lastTouchX := x)]), i, m.pos + dx);
        Step(f.bar, c.events + f.events)
  }

  /**
   * Every drag keeps the layout invariant, whichever clamp applies, provided
   * both handles have the thumb width and the span cap is at least that width.
   */
  lemma MoveKeepsLayout(s: SeekBar, x: real, g: GuardReading)
    requires WellFormed(s) && s.currentThumb != -1 && s.pixelRangeMax != 0.0
    ensures UniformWidth(s) && Ordered(s) && s.thumbWidth <= s.maxWidth ==>
      UniformWidth(MoveStep(s, x, g).bar) && Ordered(MoveStep(s, x, g).bar)
  {
  }

  /**
   * A drag fires one or two seek events, and each reports the percentage of
   * its thumb's final position: the pulled-along thumb is not touched again
   * after its event.
   */
  lemma MoveReportsPositions(s: SeekBar, x: real, g: GuardReading)
    requires WellFormed(s) && s.currentThumb != -1 && s.pixelRangeMax != 0.0
    ensures var r := MoveStep(s, x, g);
      && 1 <= |r.events| <= 2
      && forall k :: 0 <= k < |r.events| ==> ReportsPosition(r.bar, r.events[k])
  {
    var i := s.currentThumb;
    var m := s.thumbs[i];
    var dx := x - m.lastTouchX;
    if FreeMove(s, x) {
      FreeMoveReportsPositions(s, x, g);
    }
  }

  lemma FreeMoveReportsPositions(s: SeekBar, x: real, g: GuardReading)
    requires WellFormed(s) && s.currentThumb != -1 && s.pixelRangeMax != 0.0
    requires FreeMove(s, x)
    ensures var r := MoveStep(s, x, g);
      && 1 <= |r.events| <= 2
      && forall k :: 0 <= k < |r.events| ==> ReportsPosition(r.bar, r.events[k])
  {
    var i := s.currentThumb;
    var m := s.thumbs[i];
    var dx := x - m.lastTouchX;
    var c := CheckPositionThumb(s, dx, i == Left, g);
    var f := SetThumbPos(c.bar.(thumbs := c.bar.thumbs[i := m.(lastTouchX := x)]), i, m.pos + dx);
    var r := MoveStep(s, x, g);
    assert r == Step(f.bar, c.events + f.events);
    assert f.bar.pixelRangeMax == s.pixelRangeMax && f.bar.thumbWidth == s.thumbWidth;
    assert ReportsPosition(f.bar, f.events[0]);
    if c.events == [] {
      assert r.events == f.events;
    } else {
      assert f.bar.thumbs[1 - i] == c.bar.thumbs[1 - i];
      assert ReportsPosition(f.bar, c.events[0]);
      assert r.events == [c.events[0], f.events[0]];
    }
  }

  /**
   * `onTouchEvent`. DOWN selects the thumb under the finger (or -1) and is
   * consumed only on a hit; UP fires a stop event for the selected thumb; MOVE
   * drags it; other actions are not consumed. A MOVE while no thumb is
   * selected indexes the thumb list at -1 and throws.
   */
  function OnTouchEvent(s: SeekBar, ev: Touch, g: GuardReading): (r: Result<Handled>)
    requires WellFormed(s)
    requires ev.action == Move ==> s.pixelRangeMax != 0.0
    ensures r.Failure? <==> ev.action == Move && s.currentThumb == -1
    ensures r.Success? ==> WellFormed(r.value.bar)
    ensures r.Success? && !r.value.consumed ==> r.value.events == []
    ensures r.Success? ==> r.value.bar.maxWidth == s.maxWidth && r.value.bar.pixelRangeMax == s.pixelRangeMax
    ensures r.Success? ==> r.value.bar.thumbWidth == s.thumbWidth
    ensures r.Success? && UniformWidth(s) && Ordered(s) && s.thumbWidth <= s.maxWidth ==>
      UniformWidth(r.value.bar) && Ordered(r.value.bar)
    ensures ev.action == Down ==> r.Success? && (r.value.consumed <==> ClosestThumb(s.thumbs, s.thumbWidth, ev.x) != -1)
    ensures ev.action == Other ==> r == Success(Handled(s, false, []))
  {
    match ev.action
    case Down =>
      var c := ClosestThumb(s.thumbs, s.thumbWidth, ev.x);
      if c == -1 then
        Success(Handled(s.(currentThumb := -1), false, []))
      else
        var th := s.thumbs[c].(lastTouchX := ev.x);
        Success(Handled(s.(currentThumb := c, thumbs := s.thumbs[c := th]), true, [RangeEvent(SeekStart, c, th.value)]))
    case Up =>
      if s.currentThumb == -1 then
        Success(Handled(s, false, []))
      else
        Success(Handled(s, true, [RangeEvent(SeekStop, s.currentThumb, s.thumbs[s.currentThumb].value)]))
    case Move =>
      if s.currentThumb == -1 then
        Failure(IndexOutOfBounds)
      else
        var st := MoveStep(s, ev.x, g);
        MoveKeepsLayout(s, ev.x, g);
        Success(Handled(st.bar, true, st.events))
    case Other =>
      Success(Handled(s, false, []))
  }

  // ---------------------------------------------------------------- properties of touch handling

  /** DOWN is consumed exactly on a hit; a hit selects the thumb, anchors the drag at `x` and fires a start event. */
  lemma DownSelectsClosest(s: SeekBar, x: real, g: GuardReading)
    requires WellFormed(s)
    ensures var r := OnTouchEvent(s, Touch(Down, x), g);
      var c := ClosestThumb(s.thumbs, s.thumbWidth, x);
      && r.Success?
      && r.value.bar.currentThumb == c
      && (r.value.consumed <==> c != -1)
      && (c == -1 ==> r.value.bar == s.(currentThumb := -1) && r.value.events == [])
      && (c != -1 ==>
            && r.value.bar.thumbs[c].lastTouchX == x
            && r.value.bar.thumbs[c].pos == s.thumbs[c].pos
            && r.value.bar.thumbs[1 - c] == s.thumbs[1 - c]
            && r.value.events == [RangeEvent(SeekStart, c, s.thumbs[c].value)])
  {
  }

  /** UP with no thumb selected is not consumed and fires nothing; otherwise it fires one stop event and changes nothing. */
  lemma UpReportsStop(s: SeekBar, x: real, g: GuardReading)
    requires WellFormed(s)
    ensures var r := OnTouchEvent(s, Touch(Up, x), g);
      && r.Success? && r.value.bar == s
      && (s.currentThumb == -1 ==> !r.value.consumed && r.value.events == [])
      && (s.currentThumb != -1 ==> r.value.consumed && r.value.events == [RangeEvent(SeekStop, s.currentThumb, s.thumbs[s.currentThumb].value)])
  {
  }

  /**
   * A LEFT drag: pinned just left of RIGHT when it would reach it, pinned to 0
   * when it would leave the range (in both cases the drag anchor is kept),
   * otherwise moved by `dx` with the anchor moved to `x`. The thumb's value
   * always follows its new position and the last event reports it.
   */
  lemma MoveLeftCases(s: SeekBar, x: real, g: GuardReading)
    requires WellFormed(s) && s.currentThumb == Left && s.pixelRangeMax != 0.0
    ensures var r := MoveStep(s, x, g);
      var left, right := s.thumbs[Left], s.thumbs[Right];
      var w := WidthBitmap(left) as real;
      var newX := left.pos + (x - left.lastTouchX);
      var left' := r.bar.thumbs[Left];
      && (newX + w >= right.pos ==> left'.pos == right.pos - w && left'.lastTouchX == left.lastTouchX && r.bar.thumbs[Right] == right)
      && (newX + w < right.pos && newX <= PixelRangeMin ==> left'.pos == PixelRangeMin && left'.lastTouchX == left.lastTouchX && r.bar.thumbs[Right] == right)
      && (FreeMove(s, x) ==> left'.pos == newX && left'.lastTouchX == x)
      && left'.value == PixelToScale(s.pixelRangeMax, s.thumbWidth, Left, left'.pos)
      && |r.events| > 0 && r.events[|r.events| - 1] == RangeEvent(Seek, Left, left'.value)
  {
  }

  /**
   * A RIGHT drag, the mirror case: pinned one handle width right of LEFT, or to
   * the end of the range, otherwise moved by `dx` with the anchor moved to `x`.
   */
  lemma MoveRightCases(s: SeekBar, x: real, g: GuardReading)
    requires WellFormed(s) && s.currentThumb == Right && s.pixelRangeMax != 0.0
    ensures var r := MoveStep(s, x, g);
      var left, right := s.thumbs[Left], s.thumbs[Right];
      var newX := right.pos + (x - right.lastTouchX);
      var right' := r.bar.thumbs[Right];
      && (newX <= left.pos + WidthBitmap(left) as real ==>
            right'.pos == left.pos + WidthBitmap(right) as real && right'.lastTouchX == right.lastTouchX && r.bar.thumbs[Left] == left)
      && (left.pos + WidthBitmap(left) as real < newX && newX >= s.pixelRangeMax ==>
            right'.pos == s.pixelRangeMax && right'.lastTouchX == right.lastTouchX && r.bar.thumbs[Left] == left)
      && (FreeMove(s, x) ==> right'.pos == newX && right'.lastTouchX == x)
      && right'.value == PixelToScale(s.pixelRangeMax, s.thumbWidth, Right, right'.pos)
      && |r.events| > 0 && r.events[|r.events| - 1] == RangeEvent(Seek, Right, right'.value)
  {
  }

  /**
   * Dragging RIGHT outward past the span cap pulls LEFT rightward so that the
   * span is exactly the cap; LEFT's change is announced before RIGHT's.
   */
  lemma RightOutwardDragPullsLeft(s: SeekBar, x: real, g: GuardReading)
    requires WellFormed(s) && s.currentThumb == Right && s.pixelRangeMax != 0.0 && FreeMove(s, x)
    requires var dx := x - s.thumbs[Right].lastTouchX;
      0.0 < dx && s.thumbs[Right].pos + dx - s.thumbs[Left].pos > s.maxWidth
    ensures var r := MoveStep(s, x, g);
      && Span(r.bar) == s.maxWidth
      && r.bar.thumbs[Left].pos > s.thumbs[Left].pos
      && r.events == [RangeEvent(Seek, Left, r.bar.thumbs[Left].value), RangeEvent(Seek, Right, r.bar.thumbs[Right].value)]
  {
  }

  /**
   * Dragging LEFT leftward when the guard fires pulls RIGHT to exactly the cap
   * from LEFT's new position; RIGHT only ever moves leftward here.
   */
  lemma LeftOutwardDragPullsRight(s: SeekBar, x: real, g: GuardReading)
    requires WellFormed(s) && s.currentThumb == Left && s.pixelRangeMax != 0.0 && FreeMove(s, x)
    requires var dx := x - s.thumbs[Left].lastTouchX;
      dx < 0.0 && LeftwardGuard(g, s.thumbs[Left].pos, s.thumbs[Right].pos, dx, s.maxWidth)
    ensures var r := MoveStep(s, x, g);
      && Span(r.bar) == s.maxWidth
      && r.bar.thumbs[Right].pos < s.thumbs[Right].pos
      && r.events == [RangeEvent(Seek, Right, r.bar.thumbs[Right].value), RangeEvent(Seek, Left, r.bar.thumbs[Left].value)]
  {
  }

  /** A free drag that does not widen the selection never moves the other thumb. */
  lemma ShrinkingDragLeavesOtherThumb(s: SeekBar, x: real, g: GuardReading)
    requires WellFormed(s) && s.currentThumb != -1 && s.pixelRangeMax != 0.0 && FreeMove(s, x)
    requires var dx := x - s.thumbs[s.currentThumb].lastTouchX;
      (s.currentThumb == Left && 0.0 <= dx) || (s.currentThumb == Right && dx <= 0.0)
    ensures var r := MoveStep(s, x, g);
      && r.bar.thumbs[1 - s.currentThumb] == s.thumbs[1 - s.currentThumb]
      && r.events == [RangeEvent(Seek, s.currentThumb, r.bar.thumbs[s.currentThumb].value)]
  {
  }

  /**
   * Finding, as written: once the span is within the cap, the guard of a
   * leftward LEFT drag can never fire, so the drag widens the span by `-dx`
   * unchecked.
   */
  lemma AsWrittenLeftwardGuardNeverFires(s: SeekBar, x: real)
    requires WellFormed(s) && s.currentThumb == Left && s.pixelRangeMax != 0.0 && FreeMove(s, x)
    requires Span(s) <= s.maxWidth
    requires x - s.thumbs[Left].lastTouchX < 0.0
    ensures var r := MoveStep(s, x, AsWritten);
      && r.bar.thumbs[Right] == s.thumbs[Right]
      && Span(r.bar) == Span(s) - (x - s.thumbs[Left].lastTouchX)
      && Span(r.bar) > Span(s)
  {
  }

  /** Finding, as written: a concrete drag that leaves the span 10 pixels above its cap. */
  lemma AsWrittenLeftwardDragExceedsCap()
    ensures var handle := Some(Bitmap(10, 10));
      var s := SeekBar([Thumb(Left, 20.0, 100.0, handle, 105.0), Thumb(Right, 40.0, 200.0, handle, 0.0)],
                       10.0, 100.0, 510, 500.0, false, Left);
      && Ordered(s) && UniformWidth(s) && Span(s) <= s.maxWidth
      && Span(MoveStep(s, 95.0, AsWritten).bar) == 110.0
  {
  }

  /**
   * Finding, corrected: with the guard reading the span after the drag, a free
   * drag of either thumb keeps the span within the cap.
   */
  lemma IntendedGuardKeepsSpanCapped(s: SeekBar, x: real)
    requires WellFormed(s) && s.currentThumb != -1 && s.pixelRangeMax != 0.0 && FreeMove(s, x)
    requires Span(s) <= s.maxWidth
    ensures Span(MoveStep(s, x, Intended).bar) <= s.maxWidth
  {
  }

  /** The edge clamps do not consult the cap: pinning LEFT to 0 can widen the span past it. */
  lemma EdgeClampIgnoresCap()
    ensures var handle := Some(Bitmap(10, 10));
      var s := SeekBar([Thumb(Left, 1.0, 5.0, handle, 5.0), Thumb(Right, 21.0, 105.0, handle, 0.0)],
                       10.0, 100.0, 510, 500.0, false, Left);
      && Ordered(s) && UniformWidth(s) && Span(s) <= s.maxWidth
      && Span(MoveStep(s, -5.0, Intended).bar) == 105.0
  {
  }

  /** A gesture: the touches fed to `onTouchEvent` one after another, stopping at a throw. */
  function Replay(s: SeekBar, touches: seq<Touch>, g: GuardReading): (r: Result<Handled>)
    requires WellFormed(s) && s.pixelRangeMax != 0.0
    ensures r.Success? ==> WellFormed(r.value.bar) && r.value.bar.pixelRangeMax == s.pixelRangeMax && r.value.bar.maxWidth == s.maxWidth
    decreases |touches|
  {
    if touches == [] then
      Success(Handled(s, false, []))
    else
      var first :- OnTouchEvent(s, touches[0], g);
      var rest :- Replay(first.bar, touches[1..], g);
      Success(Handled(rest.bar, rest.consumed, first.events + rest.events))
  }

  /**
   * However long the gesture, the thumbs never cross and stay inside the
   * range, under either reading of the leftward guard.
   */
  lemma {:induction false} ReplayKeepsLayout(s: SeekBar, touches: seq<Touch>, g: GuardReading)
    requires WellFormed(s) && s.pixelRangeMax != 0.0
    requires UniformWidth(s) && Ordered(s) && s.thumbWidth <= s.maxWidth
    ensures var r := Replay(s, touches, g);
      r.Success? ==> UniformWidth(r.value.bar) && Ordered(r.value.bar)
    decreases |touches|
  {
    if touches != [] {
      var first := OnTouchEvent(s, touches[0], g);
      if first.Success? {
        ReplayKeepsLayout(first.value.bar, touches[1..], g);
      }
    }
  }

  // ---------------------------------------------------------------- programmatic placement

  /**
   * Placing the thumbs by percentages `a <= b` within `[0, 100]` never makes
   * them overlap: the per-index compensation keeps a handle width between them,
   * and the span cap later read off by `initMaxWidth` is at least that width.
   */
  lemma {:induction false} PlacedValuesAreOrdered(s: SeekBar, a: int, b: int)
    requires TwoThumbs(s.thumbs) && UniformWidth(s)
    requires 0.0 <= s.thumbWidth <= s.pixelRangeMax
    requires 0 <= a <= b <= 100
    ensures var placed := SetThumbValue(SetThumbValue(s, Left, a), Right, b);
      && Ordered(placed) && UniformWidth(placed)
      && InitMaxWidth(placed).bar.maxWidth >= s.thumbWidth
  {
    var s1 := SetThumbValue(s, Left, a);
    var placed := SetThumbValue(s1, Right, b);
    assert placed.thumbs[Left] == s1.thumbs[Left];
    PlacedShares(a as real, b as real, s.pixelRangeMax, s.thumbWidth, placed.thumbs[Left].pos, placed.thumbs[Right].pos);
  }

  /** Pixels placed at shares `a <= b` of the range keep a handle width between them and stay inside it. */
  lemma PlacedShares(a: real, b: real, p: real, w: real, left: real, right: real)
    requires 0.0 <= a <= b <= 100.0 && 0.0 <= w <= p
    requires left == a * (p - w) / 100.0 && right == w + b * (p - w) / 100.0
    ensures 0.0 <= left && left + w <= right <= p
  {
    var d := p - w;
    MulMonotoneReal(0.0, a, d);
    MulMonotoneReal(a, b, d);
    MulMonotoneReal(b, 100.0, d);
  }

  /** After the first measure each thumb's position is the pixel of its value. */
  lemma FirstMeasureIsCoherent(s: SeekBar, viewWidth: int)
    requires WellFormed(s) && s.firstRun && s.currentThumb != -1
    ensures var r := Measure(s, viewWidth);
      && r.Success?
      && r.value.bar.thumbs[Left].pos == ScaleToPixel(r.value.bar.pixelRangeMax, s.thumbWidth, Left, r.value.bar.thumbs[Left].value)
      && r.value.bar.thumbs[Right].pos == ScaleToPixel(r.value.bar.pixelRangeMax, s.thumbWidth, Right, r.value.bar.thumbs[Right].value)
      && (UniformWidth(s) && 0.0 <= s.thumbWidth ==> (Ordered(r.value.bar) <==> s.thumbWidth <= r.value.bar.pixelRangeMax))
  {
  }

  // ---------------------------------------------------------------- values against positions

  /**
   * Thumb `index`'s value lies on the inner side of the percentage its pixel
   * stands for: LEFT's value is at most its pixel's share of `[0, P - W]`,
   * RIGHT's at least its pixel's share of `[W, P]`, and both are in `[0, 100]`
   * on their outer side. Placing a thumb by value meets the bound exactly;
   * `pixelToScale` errs toward the inside.
   */
  predicate ValueFollows(pixelRangeMax: real, thumbWidth: real, index: int, t: Thumb) {
    if index == Left then LeftFollows(pixelRangeMax, thumbWidth, t) else RightFollows(pixelRangeMax, thumbWidth, t)
  }

  predicate LeftFollows(pixelRangeMax: real, thumbWidth: real, t: Thumb) {
    0.0 <= t.value && t.value * (pixelRangeMax - thumbWidth) <= 100.0 * t.pos
  }

  predicate RightFollows(pixelRangeMax: real, thumbWidth: real, t: Thumb) {
    t.value <= ScaleRangeMax && 100.0 * (t.pos - thumbWidth) <= t.value * (pixelRangeMax - thumbWidth)
  }

  predicate ValuesFollowThumbs(s: SeekBar)
    requires TwoThumbs(s.thumbs)
  {
    && LeftFollows(s.pixelRangeMax, s.thumbWidth, s.thumbs[Left])
    && RightFollows(s.pixelRangeMax, s.thumbWidth, s.thumbs[Right])
  }

  /** Thumb `index` holds the value `pixelToScale` gives its position. */
  predicate Settled(s: SeekBar, index: int)
    requires TwoThumbs(s.thumbs) && 0 <= index <= 1 && s.pixelRangeMax != 0.0
  {
    s.thumbs[index].value == PixelToScale(s.pixelRangeMax, s.thumbWidth, index, s.thumbs[index].pos)
  }

  /**
   * When the view is wider than two handles, values that follow an ordered
   * layout are ordered too: LEFT's value never exceeds RIGHT's.
   */
  lemma FollowingValuesAreOrdered(s: SeekBar)
    requires TwoThumbs(s.thumbs) && Ordered(s) && ValuesFollowThumbs(s)
    requires s.thumbWidth < s.pixelRangeMax
    ensures s.thumbs[Left].value <= s.thumbs[Right].value
  {
    var d, lv, rv := s.pixelRangeMax - s.thumbWidth, s.thumbs[Left].value, s.thumbs[Right].value;
    assert lv * d <= 100.0 * s.thumbs[Left].pos;
    assert 100.0 * s.thumbs[Left].pos <= 100.0 * (s.thumbs[Right].pos - s.thumbWidth);
    assert 100.0 * (s.thumbs[Right].pos - s.thumbWidth) <= rv * d;
    CancelPositive(lv, rv, d);
  }

  /** A settled thumb of an ordered layout follows its position. */
  lemma SettledFollows(s: SeekBar, index: int)
    requires TwoThumbs(s.thumbs) && Ordered(s) && 0.0 < s.pixelRangeMax && 0.0 <= s.thumbWidth
    requires 0 <= index <= 1 && Settled(s, index)
    ensures ValueFollows(s.pixelRangeMax, s.thumbWidth, index, s.thumbs[index])
  {
    var p, w, pos := s.pixelRangeMax, s.thumbWidth, s.thumbs[index].pos;
    var v := PixelToScale(p, w, index, pos);
    OrderedPercent(s, index);
    if index == Left {
      LeftValueFollows(p, w, pos, v);
    } else {
      RightValueFollows(p, w, pos, v);
    }
  }

  /** `pixelToScale`'s LEFT value is at most the pixel's share of `[0, P - W]`. */
  lemma LeftValueFollows(p: real, w: real, pos: real, v: real)
    requires 0.0 < p && 0.0 <= pos
    requires v * p * p == 100.0 * pos * (p + w)
    ensures v * (p - w) <= 100.0 * pos
  {
    var x, u, g := (v * (p - w)) * (p * p), (100.0 * pos) * (p * p), (100.0 * pos) * (w * w);
    assert v * (p * p) == (100.0 * pos) * (p + w);
    assert x == (v * (p * p)) * (p - w);
    assert (v * (p * p)) * (p - w) == ((100.0 * pos) * (p + w)) * (p - w);
    assert ((100.0 * pos) * (p + w)) * (p - w) == u - g;
    MulMonotoneReal(0.0, w * w, 100.0 * pos);
    assert 0.0 <= g;
    CancelSquare(v * (p - w), 100.0 * pos, p, x, u);
  }

  /** `pixelToScale`'s RIGHT value is at least the pixel's share of `[W, P]`. */
  lemma RightValueFollows(p: real, w: real, pos: real, v: real)
    requires 0.0 < p && pos <= p
    requires v * p * p == 100.0 * (pos * (p + w) - w * p)
    ensures 100.0 * (pos - w) <= v * (p - w)
  {
    var x, u, g := (100.0 * (pos - w)) * (p * p), (v * (p - w)) * (p * p), 100.0 * ((w * w) * (p - pos));
    assert v * (p * p) == 100.0 * (pos * (p + w) - w * p);
    assert u == (v * (p * p)) * (p - w);
    assert (v * (p * p)) * (p - w) == 100.0 * ((pos * (p + w) - w * p) * (p - w));
    assert (pos * (p + w) - w * p) * (p - w) == pos * (p * p) - w * (p * p) + (w * w) * (p - pos);
    assert x == 100.0 * (pos * (p * p) - w * (p * p));
    MulMonotoneReal(0.0, w * w, p - pos);
    assert 0.0 <= g;
    assert x <= u;
    CancelSquare(100.0 * (pos - w), v * (p - w), p, x, u);
  }

  /** `a <= b` when `a * p^2 <= b * p^2` for a positive `p`, cancelling one factor at a time. */
  lemma CancelSquare(a: real, b: real, p: real, x: real, u: real)
    requires 0.0 < p && x == a * (p * p) && u == b * (p * p) && x <= u
    ensures a <= b
  {
    var ap, bp := a * p, b * p;
    assert ap * p == x && bp * p == u;
    CancelPositive(ap, bp, p);
    CancelPositive(a, b, p);
  }

  /**
   * A drag settles the dragged thumb and reports it last. Either the other
   * thumb keeps its value and pixel and the drag fires one event, or it was
   * pulled along, is settled too and is reported first.
   */
  lemma MoveSettlesValues(s: SeekBar, x: real, g: GuardReading)
    requires WellFormed(s) && s.currentThumb != -1 && s.pixelRangeMax != 0.0
    ensures var r, i := MoveStep(s, x, g), s.currentThumb;
      && (|r.events| == 1 || |r.events| == 2)
      && r.events[|r.events| - 1] == RangeEvent(Seek, i, r.bar.thumbs[i].value)
      && Settled(r.bar, i)
      && (|r.events| == 1 ==>
            r.bar.thumbs[1 - i].value == s.thumbs[1 - i].value && r.bar.thumbs[1 - i].pos == s.thumbs[1 - i].pos)
      && (|r.events| == 2 ==>
            r.events[0] == RangeEvent(Seek, 1 - i, r.bar.thumbs[1 - i].value) && Settled(r.bar, 1 - i))
  {
    if FreeMove(s, x) {
      FreeMoveSettlesValues(s, x, g);
    }
  }

  lemma FreeMoveSettlesValues(s: SeekBar, x: real, g: GuardReading)
    requires WellFormed(s) && s.currentThumb != -1 && s.pixelRangeMax != 0.0
    requires FreeMove(s, x)
    ensures var r, i := MoveStep(s, x, g), s.currentThumb;
      && (|r.events| == 1 || |r.events| == 2)
      && r.events[|r.events| - 1] == RangeEvent(Seek, i, r.bar.thumbs[i].value)
      && Settled(r.bar, i)
      && (|r.events| == 1 ==>
            r.bar.thumbs[1 - i].value == s.thumbs[1 - i].value && r.bar.thumbs[1 - i].pos == s.thumbs[1 - i].pos)
      && (|r.events| == 2 ==>
            r.events[0] == RangeEvent(Seek, 1 - i, r.bar.thumbs[1 - i].value) && Settled(r.bar, 1 - i))
  {
    var i := s.currentThumb;
    var m := s.thumbs[i];
    var dx := x - m.lastTouchX;
    var c := CheckPositionThumb(s, dx, i == Left, g);
    var f := SetThumbPos(c.bar.(thumbs := c.bar.thumbs[i := m.(lastTouchX := x)]), i, m.pos + dx);
    var r := MoveStep(s, x, g);
    assert r == Step(f.bar, c.events + f.events);
    assert f.bar.pixelRangeMax == s.pixelRangeMax && f.bar.thumbWidth == s.thumbWidth;
    assert f.bar.thumbs[1 - i] == c.bar.thumbs[1 - i];
    if c.events == [] {
      assert r.events == f.events;
    } else {
      assert r.events == [c.events[0], f.events[0]];
    }
  }

  /** A drag on a sound layout keeps every value following its thumb. */
  lemma MoveKeepsValuesFollowing(s: SeekBar, x: real, g: GuardReading)
    requires WellFormed(s) && s.currentThumb != -1 && 0.0 < s.pixelRangeMax && 0.0 <= s.thumbWidth
    requires UniformWidth(s) && Ordered(s) && s.thumbWidth <= s.maxWidth && ValuesFollowThumbs(s)
    ensures ValuesFollowThumbs(MoveStep(s, x, g).bar)
  {
    var r, i := MoveStep(s, x, g), s.currentThumb;
    MoveKeepsLayout(s, x, g);
    MoveSettlesValues(s, x, g);
    SettledFollows(r.bar, i);
    if |r.events| == 2 {
      SettledFollows(r.bar, 1 - i);
    } else {
      assert ValueFollows(s.pixelRangeMax, s.thumbWidth, 1 - i, s.thumbs[1 - i]);
    }
  }

  /** Placing both thumbs by percentages within `[0, 100]` makes their values follow them. */
  lemma PlacedValuesFollow(s: SeekBar, a: int, b: int)
    requires TwoThumbs(s.thumbs) && 0 <= a && b <= 100
    ensures ValuesFollowThumbs(SetThumbValue(SetThumbValue(s, Left, a), Right, b))
  {
    var s1 := SetThumbValue(s, Left, a);
    var placed := SetThumbValue(s1, Right, b);
    assert placed.thumbs[Left] == s1.thumbs[Left];
  }

  /** The first measure places both thumbs exactly where their values put them. */
  lemma MeasuredValuesFollow(s: SeekBar, viewWidth: int)
    requires WellFormed(s) && s.firstRun
    ensures var r := Measure(s, viewWidth);
      r.Success? ==> ValuesFollowThumbs(r.value.bar)
  {
  }

  // ---------------------------------------------------------------- listener fan-out

  /** One delivery of a range event to one registered listener. */
  datatype Delivery<L> = Delivery(listener: L, event: RangeEvent)

  /** One emission: every registered listener, in registration order, hears the event. */
  function Deliver<L>(listeners: seq<L>, e: RangeEvent): (r: seq<Delivery<L>>)
    ensures |r| == |listeners|
    ensures forall j :: 0 <= j < |r| ==> r[j] == Delivery(listeners[j], e)
  {
    seq(|listeners|, j requires 0 <= j < |listeners| => Delivery(listeners[j], e))
  }

  /**
   * `r` holds, row after row, one row of `|listeners|` deliveries per event:
   * delivery `k` brings event `k / |listeners|` to listener `k % |listeners|`.
   */
  ghost predicate RowMajor<L>(r: seq<Delivery<L>>, listeners: seq<L>, events: seq<RangeEvent>)
    requires |r| == |listeners| * |events|
  {
    forall k :: 0 <= k < |r| ==>
      (RowWithin(k, |listeners|, |events|);
       r[k] == Delivery(listeners[k % |listeners|], events[k / |listeners|]))
  }

  /**
   * The deliveries of a step's events: event by event, each to all listeners.
   * A listener list never created behaves as an empty one.
   */
  function FanOut<L>(listeners: seq<L>, events: seq<RangeEvent>): (r: seq<Delivery<L>>)
    ensures |r| == |listeners| * |events|
    ensures RowMajor(r, listeners, events)
    decreases |events|
  {
    if events == [] then []
    else
      var head, tail := Deliver(listeners, events[0]), FanOut(listeners, events[1..]);
      ConsDeliveries(listeners, events, head, tail);
      head + tail
  }

  /** The row of the first event followed by the rows of the rest form the rows of all events. */
  lemma ConsDeliveries<L>(listeners: seq<L>, events: seq<RangeEvent>, head: seq<Delivery<L>>, tail: seq<Delivery<L>>)
    requires events != [] && head == Deliver(listeners, events[0])
    requires |tail| == |listeners| * (|events| - 1) && RowMajor(tail, listeners, events[1..])
    ensures |head + tail| == |listeners| * |events|
    ensures RowMajor(head + tail, listeners, events)
  {
    var n, m := |listeners|, |events|;
    assert n * m == n + n * (m - 1);
    forall k | 0 <= k < |head + tail|
      ensures (head + tail)[k] == Delivery(listeners[k % n], events[k / n])
    {
      RowWithin(k, n, m);
      DeliveryAt(listeners, events, head, tail, k);
    }
  }

  lemma DeliveryAt<L>(listeners: seq<L>, events: seq<RangeEvent>, head: seq<Delivery<L>>, tail: seq<Delivery<L>>, k: int)
    requires events != [] && head == Deliver(listeners, events[0]) && 0 < |listeners|
    requires |tail| == |listeners| * (|events| - 1) && RowMajor(tail, listeners, events[1..])
    requires 0 <= k < |head + tail| && k / |listeners| < |events|
    ensures (head + tail)[k] == Delivery(listeners[k % |listeners|], events[k / |listeners|])
  {
    var n := |listeners|;
    if k < n {
      SmallDivMod(k, n);
      assert (head + tail)[k] == head[k];
    } else {
      ShiftDivMod(k, n);
      var j := k - n;
      assert 0 <= j < |tail|;
      RowWithin(j, n, |events| - 1);
      assert (head + tail)[k] == tail[j];
      assert tail[j] == Delivery(listeners[j % n], events[1..][j / n]);
      assert events[1..][j / n] == events[k / n];
    }
  }

  /** A cell of an `n`-wide grid with `m` rows lies in one of those rows. */
  lemma RowWithin(k: int, n: int, m: int)
    requires 0 <= n && 0 <= m && 0 <= k < n * m
    ensures 0 < n && 0 <= k / n < m
  {
    var q := k / n;
    assert q * n <= k;
    MulMonotoneInt(m, q, n);
  }

  /** Multiplying by a non-negative factor keeps the order. */
  lemma MulMonotoneInt(a: int, b: int, c: int)
    ensures a <= b && 0 <= c ==> a * c <= b * c
  {
    if a <= b && 0 <= c {
      assert (b - a) * c >= 0;
    }
  }

  lemma SmallDivMod(k: int, n: int)
    requires 0 <= k < n
    ensures k % n == k && k / n == 0
  {
    DivModUnique(k, n, 0, k);
  }

  lemma ShiftDivMod(k: int, n: int)
    requires 0 < n <= k
    ensures (k - n) % n == k % n && (k - n) / n == k / n - 1
  {
    var q, r := k / n, k % n;
    assert k == q * n + r;
    assert k - n == (q - 1) * n + r;
    DivModUnique(k - n, n, q - 1, r);
  }

  /** Euclidean division by a positive divisor has one quotient and remainder. */
  lemma DivModUnique(a: int, n: int, q: int, r: int)
    requires 0 < n && a == q * n + r && 0 <= r < n
    ensures a / n == q && a % n == r
  {
    var q', r' := a / n, a % n;
    assert a == q' * n + r';
    assert (q - q') * n == r' - r;
    if q < q' {
      assert (q' - q) * n >= n by { MulAtLeast(q' - q, n); }
    } else if q' < q {
      assert (q - q') * n >= n by { MulAtLeast(q - q', n); }
    }
  }

  lemma MulAtLeast(m: int, n: int)
    requires 1 <= m && 0 < n
    ensures m * n >= n
  {
    assert (m - 1) * n >= 0;
  }


  /** Fan-out of two consecutive steps is the fan-out of the first followed by the second's. */
  lemma {:induction false} FanOutAppend<L>(listeners: seq<L>, a: seq<RangeEvent>, b: seq<RangeEvent>)
    ensures FanOut(listeners, a + b) == FanOut(listeners, a) + FanOut(listeners, b)
    decreases |a|
  {
    if a == [] {
      assert a + b == b;
    } else {
      assert (a + b)[0] == a[0];
      assert (a + b)[1..] == a[1..] + b;
      FanOutAppend(listeners, a[1..], b);
    }
  }
}
