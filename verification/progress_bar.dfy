/**
 * The passive progress indicator (ProgressBarView.kt): a background rectangle
 * that follows the selected range and a progress rectangle inside it. Both are
 * absent until the first range event arrives.
 */
module ProgressBar {
  import opened Outcomes
  import opened Graphics
  import opened KotlinNumbers
  import opened RangeSeekBar

  datatype ProgressBar = ProgressBar(viewWidth: int, progressHeight: int, background: Option<Rect>, progress: Option<Rect>)

  /** A freshly built indicator: neither rectangle exists yet. */
  function New(progressHeight: int): (p: ProgressBar)
    ensures p.background.None? && p.progress.None? && p.progressHeight == progressHeight
  {
    ProgressBar(0, progressHeight, None, None)
  }

  /** `onMeasure`: only the width used by later updates changes. */
  function Measure(p: ProgressBar, viewWidth: int): (r: ProgressBar)
    ensures r.viewWidth == viewWidth && r.(viewWidth := p.viewWidth) == p
  {
    p.(viewWidth := viewWidth)
  }

  /**
   * `updateProgress` (its time and duration arguments are unused). Without a
   * background nothing changes. A zero scale collapses the progress to width 0
   * at x = 0; any other scale runs it from the background's left edge to
   * `viewWidth * scale / 100` (Long arithmetic, then `toInt`). The progress
   * rectangle always shares the background's top and bottom.
   */
  function UpdateProgress(p: ProgressBar, scale: int): (r: ProgressBar)
    ensures r.(progress := p.progress) == p
    ensures p.background.None? ==> r == p
    ensures p.background.Some? ==>
      && r.progress.Some?
      && r.progress.value.top == p.background.value.top
      && r.progress.value.bottom == p.background.value.bottom
    ensures p.background.Some? && scale == 0 ==> r.progress.value.left == 0 && r.progress.value.right == 0
    ensures p.background.Some? && scale != 0 ==> r.progress.value.left == p.background.value.left
    ensures p.background.Some? && 0 < scale <= 100 && 0 <= p.viewWidth <= IntMax ==>
      && 0 <= r.progress.value.right <= p.viewWidth
      && r.progress.value.right * 100 <= p.viewWidth * scale < (r.progress.value.right + 1) * 100
  {
    match p.background
    case None => p
    case Some(bg) =>
      if scale == 0 then
        p.(progress := Some(Rect(0, bg.top, 0, bg.bottom)))
      else
        PercentOfWidth(p.viewWidth, scale);
        var right := WrapInt(Quot(p.viewWidth * scale, 100));
        p.(progress := Some(Rect(bg.left, bg.top, right, bg.bottom)))
  }

  /** `width * percent / 100` in Long arithmetic lies in `[0, width]` and is the floor of the exact share. */
  lemma {:induction false} PercentOfWidth(width: int, percent: int)
    ensures 0 <= width <= IntMax && 0 < percent <= 100 ==>
      var q := Quot(width * percent, 100);
      && 0 <= q <= width
      && q * 100 <= width * percent < (q + 1) * 100
  {
    if 0 <= width <= IntMax && 0 < percent <= 100 {
      var m := width * percent;
      ScaleWithin(width, percent, 100);
      var q := Quot(m, 100);
      assert 0 <= m - q * 100 < 100;
    }
  }

  /**
   * `updateBackgroundRect`: the background is created on first use as
   * `(0, 0, viewWidth, progressHeight)`; index 0 then moves only its left edge,
   * any other index only its right edge, to `viewWidth * value / 100`
   * truncated. The progress is then reset to zero width at x = 0.
   */
  function UpdateBackgroundRect(p: ProgressBar, index: int, value: real): (r: ProgressBar)
    ensures r.viewWidth == p.viewWidth && r.progressHeight == p.progressHeight
    ensures r.background.Some?
    ensures var old_ := p.background.GetOr(Rect(0, 0, p.viewWidth, p.progressHeight));
      var bg := r.background.value;
      && bg.top == old_.top && bg.bottom == old_.bottom
      && (index == 0 ==> bg.right == old_.right && bg.left == FloatToInt(PercentOf(p.viewWidth as real, value)))
      && (index != 0 ==> bg.left == old_.left && bg.right == FloatToInt(PercentOf(p.viewWidth as real, value)))
    ensures r.progress == Some(Rect(0, r.background.value.top, 0, r.background.value.bottom))
  {
    var bg := p.background.GetOr(Rect(0, 0, p.viewWidth, p.progressHeight));
    var edge := FloatToInt(PercentOf(p.viewWidth as real, value));
    var moved := if index == 0 then Rect(edge, bg.top, bg.right, bg.bottom) else Rect(bg.left, bg.top, edge, bg.bottom);
    UpdateProgress(p.(background := Some(moved)), 0)
  }

  /** The moved edge of the background stays within the view for a percentage in `[0, 100]`. */
  lemma {:induction false} BackgroundEdgeWithinView(p: ProgressBar, index: int, value: real)
    requires 0 <= p.viewWidth <= IntMax && 0.0 <= value <= 100.0
    ensures var bg := UpdateBackgroundRect(p, index, value).background.value;
      index == 0 ==> 0 <= bg.left <= p.viewWidth
    ensures var bg := UpdateBackgroundRect(p, index, value).background.value;
      index != 0 ==> 0 <= bg.right <= p.viewWidth
  {
    FloatToIntWithin(PercentOf(p.viewWidth as real, value), p.viewWidth);
  }

  /**
   * All four range callbacks (create, seek, start, stop) do the same update,
   * so an indicator listening to the selector only ever sees a zero-width
   * progress at x = 0 after any of them.
   */
  function OnRangeEvent(p: ProgressBar, e: RangeEvent): (r: ProgressBar)
    ensures r.background.Some?
    ensures r.progress == Some(Rect(0, r.background.value.top, 0, r.background.value.bottom))
    ensures r == UpdateBackgroundRect(p, e.index, e.value)
  {
    match e.kind
    case Create => UpdateBackgroundRect(p, e.index, e.value)
    case Seek => UpdateBackgroundRect(p, e.index, e.value)
    case SeekStart => UpdateBackgroundRect(p, e.index, e.value)
    case SeekStop => UpdateBackgroundRect(p, e.index, e.value)
  }
}
