/**
 * The playback and selection coordinator (VideoEditor.kt) as pure state
 * transitions. The player is reduced to whether it plays and where it
 * stands; the scrubber to its per-mille progress and visibility. The range
 * selector is the `RangeSeekBar` model, and a trimmer pairs the two so that
 * the selector's range events can be fed to the editor's listener.
 *
 * Times are `Long` milliseconds, `/` truncates toward zero (`Quot`).
 */
module VideoEditor {
  import opened Outcomes
  import opened KotlinNumbers
  import opened Thumbs
  import opened RangeSeekBar
  import opened Graphics

  /** `maxDuration` and `minDuration` before any setter ran: no constraint. */
  const Unset: int := -1

  /** The scrubber's progress counts per-mille of the video. */
  const PerMille: int := 1000

  datatype Player = Player(playing: bool, position: int)

  datatype Editor = Editor(
    maxDuration: int,
    minDuration: int,
    duration: int,
    startPosition: int,
    endPosition: int,
    timeVideo: int,
    resetSeekBar: bool,
    prepared: bool,
    player: Player,
    scrub: int,
    scrubVisible: bool,
    playIconVisible: bool)

  /** The editor and the range selector it listens to. */
  datatype Trimmer = Trimmer(editor: Editor, bar: SeekBar)

  /** The window `setSeekBarPosition` selects, with the thumb percentages it places, if any. */
  datatype Window = Window(start: int, end: int, thumbValues: Option<(int, int)>)

  /** A freshly inflated editor: no constraint, nothing prepared, the player paused at 0. */
  function NewEditor(): Editor {
    Editor(Unset, Unset, 0, 0, 0, 0, false, false, Player(false, 0), 0, true, true)
  }

  /** The start and end of the selection are unchanged, and so is the duration. */
  predicate SameSelection(e: Editor, r: Editor) {
    r.startPosition == e.startPosition && r.endPosition == e.endPosition && r.duration == e.duration
  }

  /** Both ends of the selection lie inside the video. */
  predicate InVideo(e: Editor) {
    0 <= e.startPosition <= e.duration && 0 <= e.endPosition <= e.duration
  }

  /**
   * The common stop sequence: the poll is cancelled, the player paused and the
   * play icon shown. The poll itself is not part of the state.
   */
  function Halt(e: Editor): (r: Editor)
    ensures !r.player.playing && r.playIconVisible && r.player.position == e.player.position
    ensures r.(player := e.player, playIconVisible := e.playIconVisible) == e
  {
    e.(player := e.player.(playing := false), playIconVisible := true)
  }

  // ---------------------------------------------------------------- duration bounds

  /**
   * Seconds as `Int` milliseconds. The product is even, so the 32-bit result is
   * never the -1 sentinel.
   */
  function SecondsToMillis(seconds: int): (r: int)
    ensures IsInt(r) && r != Unset
    ensures (seconds * 1000 - r) % IntModulus == 0
    ensures IsInt(seconds * 1000) ==> r == seconds * 1000
  {
    var ms := seconds * 1000;
    assert ms == 2 * (seconds * 500);
    WrapEvenIsNotMinusOne(ms);
    WrapInt(ms)
  }

  /**
   * `setMaxDuration`: seconds become milliseconds in 32-bit `Int` arithmetic.
   * The product is even, so the stored value is never the -1 sentinel: once a
   * setter ran, the bound is active.
   */
  function SetMaxDuration(e: Editor, seconds: int): (r: Editor)
    requires IsInt(seconds)
    ensures r.maxDuration != Unset
    ensures IsInt(seconds * 1000) ==> r.maxDuration == seconds * 1000
    ensures IsInt(r.maxDuration) && (seconds * 1000 - r.maxDuration) % IntModulus == 0
    ensures r.(maxDuration := e.maxDuration) == e
  {
    e.(maxDuration := SecondsToMillis(seconds))
  }

  /** `setMinDuration`: as `SetMaxDuration`, for the lower bound. */
  function SetMinDuration(e: Editor, seconds: int): (r: Editor)
    requires IsInt(seconds)
    ensures r.minDuration != Unset
    ensures IsInt(seconds * 1000) ==> r.minDuration == seconds * 1000
    ensures IsInt(r.minDuration) && (seconds * 1000 - r.minDuration) % IntModulus == 0
    ensures r.(minDuration := e.minDuration) == e
  {
    e.(minDuration := SecondsToMillis(seconds))
  }

  // ---------------------------------------------------------------- the initial window

  /** The first branch of `setSeekBarPosition`: a set maximum the video reaches. */
  predicate MaxBranch(duration: int, maxDuration: int) {
    duration >= maxDuration && maxDuration != Unset
  }

  /** The second branch: reached only when the first fails, for a set minimum the video does not exceed. */
  predicate MinBranch(duration: int, maxDuration: int, minDuration: int) {
    !MaxBranch(duration, maxDuration) && duration <= minDuration && minDuration != Unset
  }

  /**
   * How `setSeekBarPosition` records the selection once the window has placed
   * the thumbs. The source keeps the window's millisecond bounds, although the
   * thumbs stand on the window's percentages truncated to whole numbers; the
   * other reading takes the bounds the placed thumbs stand for, the times a
   * seek event for them would set.
   */
  datatype BoundsReading = WindowBounds | ThumbBounds

  /** `q` is `a / b` rounded toward zero, as Kotlin's `Long` division gives it. */
  predicate TruncatedQuotient(q: int, a: int, b: int) {
    && b != 0
    && (0 <= a ==> 0 <= a - q * b < Abs(b))
    && (a < 0 ==> -Abs(b) < a - q * b <= 0)
  }

  /**
   * The window centred on the middle of the video with the length of the
   * bound that applies, both halves rounded toward zero; the thumb percentages
   * are the window ends times 100 over the duration. A zero duration in either
   * bounded branch divides by zero.
   */
  function InitialWindow(duration: int, maxDuration: int, minDuration: int): (r: Result<Window>)
    ensures r.Failure? <==> duration == 0 && (MaxBranch(duration, maxDuration) || MinBranch(duration, maxDuration, minDuration))
    ensures r.Failure? ==> r.error == ArithmeticError
    ensures r.Success? && !MaxBranch(duration, maxDuration) && !MinBranch(duration, maxDuration, minDuration) ==>
      r.value == Window(0, duration, None)
    ensures r.Success? && (MaxBranch(duration, maxDuration) || MinBranch(duration, maxDuration, minDuration)) ==>
      var length := if MaxBranch(duration, maxDuration) then maxDuration else minDuration;
      && r.value.start + r.value.end == 2 * Quot(duration, 2)
      && r.value.end - r.value.start == 2 * Quot(length, 2)
      && r.value.thumbValues.Some?
      && TruncatedQuotient(r.value.thumbValues.value.0, r.value.start * 100, duration)
      && TruncatedQuotient(r.value.thumbValues.value.1, r.value.end * 100, duration)
  {
    if MaxBranch(duration, maxDuration) || MinBranch(duration, maxDuration, minDuration) then
      var length := if MaxBranch(duration, maxDuration) then maxDuration else minDuration;
      var start, end := Quot(duration, 2) - Quot(length, 2), Quot(duration, 2) + Quot(length, 2);
      if duration == 0 then
        Failure(ArithmeticError)
      else
        Success(Window(start, end, Some((Quot(start * 100, duration), Quot(end * 100, duration)))))
    else
      Success(Window(0, duration, None))
  }

  /**
   * With a non-negative maximum the video reaches, the centred window lies
   * inside the video, is as long as the maximum rounded down to even, and its
   * thumb percentages are ordered within `[0, 100]`.
   */
  lemma MaxWindowWithinVideo(duration: int, maxDuration: int, minDuration: int)
    requires 0 < duration && 0 <= maxDuration <= duration
    ensures var r := InitialWindow(duration, maxDuration, minDuration);
      && r.Success? && r.value.thumbValues.Some?
      && 0 <= r.value.start <= r.value.end <= duration
      && maxDuration - 1 <= r.value.end - r.value.start <= maxDuration
      && 0 <= r.value.thumbValues.value.0 <= r.value.thumbValues.value.1 <= 100
  {
    var r := InitialWindow(duration, maxDuration, minDuration);
    QuotNonNegative(duration, 2);
    QuotNonNegative(maxDuration, 2);
    var start, end := r.value.start, r.value.end;
    assert start == duration / 2 - maxDuration / 2 && end == duration / 2 + maxDuration / 2;
    assert 0 <= start * 100 <= end * 100 <= 100 * duration;
    QuotMonotone(start * 100, end * 100, duration);
    QuotWithin(start * 100, duration, 100);
    QuotWithin(end * 100, duration, 100);
  }

  /** The worked examples: a 10 s video with a 4 s maximum, and the 60 s maximum with a 0 s minimum on a 90 s video. */
  lemma InitialWindowExamples()
    ensures InitialWindow(10000, 4000, Unset) == Success(Window(3000, 7000, Some((30, 70))))
    ensures InitialWindow(90000, 60000, 0) == Success(Window(15000, 75000, Some((16, 83))))
    ensures InitialWindow(10000, Unset, Unset) == Success(Window(0, 10000, None))
  {
  }

  /**
   * The minimum branch centres a window longer than the video: it starts
   * before the video exactly when half the minimum exceeds half the duration,
   * and its percentages leave `[0, 100]` (4 s video, 6 s minimum: -25 and 125).
   */
  lemma MinWindowCanStartBeforeVideo(duration: int, maxDuration: int, minDuration: int)
    requires 0 < duration && MinBranch(duration, maxDuration, minDuration)
    ensures var r := InitialWindow(duration, maxDuration, minDuration);
      && r.Success?
      && (r.value.start < 0 <==> duration / 2 < minDuration / 2)
      && r.value.end - duration == -r.value.start - duration % 2
    ensures InitialWindow(4000, Unset, 6000) == Success(Window(-1000, 5000, Some((-25, 125))))
  {
    QuotNonNegative(duration, 2);
    QuotNonNegative(minDuration, 2);
  }

  /** A negative LEFT percentage places the LEFT thumb before the range, breaking the layout. */
  lemma NegativePercentLeavesRange(s: SeekBar, value: int)
    requires TwoThumbs(s.thumbs) && s.thumbWidth < s.pixelRangeMax && value < 0
    ensures SetThumbValue(s, Left, value).thumbs[Left].pos < 0.0
    ensures !Ordered(SetThumbValue(s, Left, value))
  {
    var v, d := value as real, s.pixelRangeMax - s.thumbWidth;
    assert v * d < 0.0;
  }

  // ---------------------------------------------------------------- the range events

  /** The time a thumb value stands for: its percentage of the duration in `Float`, truncated. */
  function ThumbTime(duration: int, value: real): int {
    Trunc(PercentOf(duration as real, value))
  }

  /** A larger percentage of a non-negative duration never stands for an earlier time. */
  lemma ThumbTimeMonotone(duration: int, v1: real, v2: real)
    requires 0 <= duration && v1 <= v2
    ensures ThumbTime(duration, v1) <= ThumbTime(duration, v2)
  {
    var d := duration as real;
    var x1, x2 := PercentOf(d, v1), PercentOf(d, v2);
    MulMonotoneReal(v1, v2, d);
    var p1, p2 := v1 * d, v2 * d;
    assert p1 <= p2;
    assert x1 * 100.0 == p1 && x2 * 100.0 == p2;
    CancelPositive(x1, x2, 100.0);
  }

  /**
   * `onSeekThumbs`: the percentage of the duration (in `Float`, truncated) becomes
   * the start for LEFT, which the player seeks to, or the end for RIGHT; the
   * selected length is recomputed either way.
   */
  function OnSeekThumbs(e: Editor, index: int, value: real): (r: Editor)
    ensures var bound := ThumbTime(e.duration, value);
      && (index == Left ==> r.startPosition == bound && r.player.position == bound && r.endPosition == e.endPosition)
      && (index == Right ==> r.endPosition == bound && r.startPosition == e.startPosition && r.player == e.player)
      && (index != Left && index != Right ==> r.startPosition == e.startPosition && r.endPosition == e.endPosition && r.player == e.player)
    ensures r.timeVideo == r.endPosition - r.startPosition
    ensures r.player.playing == e.player.playing && r.duration == e.duration
    ensures r.(startPosition := e.startPosition, endPosition := e.endPosition, timeVideo := e.timeVideo, player := e.player) == e
  {
    var bound := ThumbTime(e.duration, value);
    var e1 :=
      if index == Left then e.(startPosition := bound, player := e.player.(position := bound))
      else if index == Right then e.(endPosition := bound)
      else e;
    e1.(timeVideo := e1.endPosition - e1.startPosition)
  }

  /** A percentage in `[0, 100]` of a non-negative duration truncates to a time inside the video. */
  lemma SeekPercentWithinVideo(duration: int, value: real)
    requires 0 <= duration && 0.0 <= value <= 100.0
    ensures 0 <= ThumbTime(duration, value) <= duration
  {
    TruncWithin(PercentOf(duration as real, value), duration);
  }


  /**
   * The editor's range listener: a seek hides the scrubber and moves a bound, a
   * stop halts playback, create and start events are ignored.
   */
  function OnRangeEvent(e: Editor, ev: RangeEvent): (r: Editor)
    ensures ev.kind == Create || ev.kind == SeekStart ==> r == e
    ensures ev.kind == SeekStop ==> r == Halt(e)
    ensures ev.kind == Seek ==> !r.scrubVisible && r == OnSeekThumbs(e.(scrubVisible := false), ev.index, ev.value)
    ensures ev.kind != Seek ==> SameSelection(e, r)
  {
    match ev.kind
    case Seek => OnSeekThumbs(e.(scrubVisible := false), ev.index, ev.value)
    case SeekStop => Halt(e)
    case _ => e
  }

  /** The events of one selector step, heard by the editor in order. */
  function Feed(e: Editor, events: seq<RangeEvent>): (r: Editor)
    ensures r.duration == e.duration
    decreases |events|
  {
    if events == [] then e else Feed(OnRangeEvent(e, events[0]), events[1..])
  }

  /** Every seek event carries a percentage. */
  predicate SeeksArePercentages(events: seq<RangeEvent>) {
    forall k :: 0 <= k < |events| && events[k].kind == Seek ==> 0.0 <= events[k].value <= ScaleRangeMax
  }

  /** Events whose seeks carry percentages keep the selection inside the video. */
  lemma {:induction false} FeedKeepsInVideo(e: Editor, events: seq<RangeEvent>)
    requires InVideo(e) && SeeksArePercentages(events)
    ensures InVideo(Feed(e, events))
    decreases |events|
  {
    if events != [] {
      var ev := events[0];
      if ev.kind == Seek {
        SeekPercentWithinVideo(e.duration, ev.value);
      }
      assert SeeksArePercentages(events[1..]) by {
        forall k | 0 <= k < |events[1..]| && events[1..][k].kind == Seek
          ensures 0.0 <= events[1..][k].value <= ScaleRangeMax
        {
          assert events[1..][k] == events[k + 1];
        }
      }
      FeedKeepsInVideo(OnRangeEvent(e, ev), events[1..]);
    }
  }

  // ---------------------------------------------------------------- progress

  /**
   * `setProgressBarPosition`: for a positive duration the scrubber shows the
   * position in per-mille of the video, rounded toward zero and narrowed to
   * `Int`; otherwise nothing changes.
   */
  function SetProgressBarPosition(e: Editor, position: int): (r: Editor)
    ensures e.duration <= 0 ==> r == e
    ensures r.(scrub := e.scrub) == e
    ensures 0 < e.duration && 0 <= position <= e.duration ==>
      && 0 <= r.scrub <= PerMille
      && r.scrub * e.duration <= PerMille * position < (r.scrub + 1) * e.duration
  {
    if 0 < e.duration then
      PerMilleWithin(position, e.duration);
      e.(scrub := WrapInt(Quot(PerMille * position, e.duration)))
    else
      e
  }

  lemma PerMilleWithin(position: int, duration: int)
    requires 0 < duration
    ensures 0 <= position <= duration ==> 0 <= Quot(PerMille * position, duration) <= PerMille
  {
    if 0 <= position <= duration {
      QuotWithin(PerMille * position, duration, PerMille);
    }
  }

  /**
   * `updateVideoProgress`: the scrubber hides at or before the start. At or past
   * the end playback halts and the next play is told to rewind; before the end
   * the scrubber follows the time.
   */
  function UpdateVideoProgress(e: Editor, time: int): (r: Editor)
    ensures r.scrubVisible <==> !(time <= e.startPosition && time <= e.endPosition)
    ensures e.endPosition <= time ==>
      !r.player.playing && r.resetSeekBar && r.playIconVisible && r.scrub == e.scrub && r.player.position == e.player.position
    ensures time < e.endPosition ==>
      r.player == e.player && r.resetSeekBar == e.resetSeekBar && r.playIconVisible == e.playIconVisible
      && r.scrub == SetProgressBarPosition(e, time).scrub
    ensures r.(scrub := e.scrub, scrubVisible := e.scrubVisible, player := e.player,
               resetSeekBar := e.resetSeekBar, playIconVisible := e.playIconVisible) == e
  {
    var e1 := e.(scrubVisible := !(time <= e.startPosition && time <= e.endPosition));
    if time >= e.endPosition then
      Halt(e1).(resetSeekBar := true)
    else
      SetProgressBarPosition(e1, time)
  }

  /**
   * `notifyProgressUpdate`, as the poll and the scrubber call it: nothing while
   * the duration is 0, else the player's position goes to the one registered
   * progress listener (so "all listeners" and "the first" coincide).
   */
  function NotifyProgressUpdate(e: Editor): (r: Editor)
    ensures e.duration == 0 ==> r == e
    ensures e.duration != 0 ==>
      && (r.resetSeekBar <==> e.resetSeekBar || e.endPosition <= e.player.position)
      && (r.player.playing <==> e.player.playing && e.player.position < e.endPosition)
    ensures r.player.position == e.player.position && SameSelection(e, r)
  {
    if e.duration == 0 then e else UpdateVideoProgress(e, e.player.position)
  }

  // ---------------------------------------------------------------- play and pause

  /**
   * `onClickVideoPlayPause`: a playing video pauses. A paused one plays, first
   * rewinding to the start when the end was reached; the rewind request is
   * consumed either way.
   */
  function OnClickVideoPlayPause(e: Editor): (r: Editor)
    ensures e.player.playing ==>
      !r.player.playing && r.player.position == e.player.position && r.resetSeekBar == e.resetSeekBar && r.playIconVisible
    ensures !e.player.playing ==>
      && r.player.playing && !r.resetSeekBar && !r.playIconVisible
      && r.player.position == (if e.resetSeekBar then e.startPosition else e.player.position)
    ensures r.(player := e.player, resetSeekBar := e.resetSeekBar, playIconVisible := e.playIconVisible) == e
  {
    if e.player.playing then
      Halt(e)
    else
      var position := if e.resetSeekBar then e.startPosition else e.player.position;
      e.(playIconVisible := false, resetSeekBar := false, player := Player(true, position))
  }

  /** Playing through the end of the selection and pressing play again replays the selection from its start. */
  lemma PlayAfterEndRestartsAtStart(e: Editor)
    requires e.duration != 0 && e.player.playing && e.endPosition <= e.player.position
    ensures var stopped := NotifyProgressUpdate(e);
      && !stopped.player.playing && stopped.resetSeekBar
      && OnClickVideoPlayPause(stopped).player == Player(true, e.startPosition)
  {
  }

  /** Pausing before the end and pressing play again resumes where playback stopped. */
  lemma PauseThenPlayResumes(e: Editor)
    requires e.player.playing && !e.resetSeekBar
    ensures OnClickVideoPlayPause(OnClickVideoPlayPause(e)).player == e.player
  {
  }

  // ---------------------------------------------------------------- the scrubber

  /** The time a scrubber progress stands for: per-mille of the duration, rounded toward zero. */
  function ScrubTime(duration: int, progress: int): int {
    Quot(duration * progress, PerMille)
  }

  /** A progress in `[0, 1000]` stands for a time inside the video. */
  lemma ScrubTimeWithin(duration: int, progress: int)
    ensures 0 <= duration && 0 <= progress <= PerMille ==> 0 <= ScrubTime(duration, progress) <= duration
  {
    if 0 <= duration && 0 <= progress <= PerMille {
      ScaleWithin(duration, progress, PerMille);
      QuotWithin(duration * progress, PerMille, duration);
    }
  }

  /**
   * `onPlayerIndicatorSeekChanged`: a user drag to a time before the start or
   * after the end snaps the scrubber back to that bound; anything else is left alone.
   */
  function OnPlayerIndicatorSeekChanged(e: Editor, progress: int, fromUser: bool): (r: Editor)
    ensures r.(scrub := e.scrub) == e
    ensures !fromUser ==> r == e
    ensures fromUser && e.startPosition <= ScrubTime(e.duration, progress) <= e.endPosition ==> r == e
    ensures fromUser && ScrubTime(e.duration, progress) < e.startPosition ==> r == SetProgressBarPosition(e, e.startPosition)
    ensures fromUser && e.startPosition <= ScrubTime(e.duration, progress) && e.endPosition < ScrubTime(e.duration, progress) ==>
      r == SetProgressBarPosition(e, e.endPosition)
  {
    var time := ScrubTime(e.duration, progress);
    if !fromUser then e
    else if time < e.startPosition then SetProgressBarPosition(e, e.startPosition)
    else if time > e.endPosition then SetProgressBarPosition(e, e.endPosition)
    else e
  }

  /**
   * A user drag outside a selection inside the video leaves the scrubber on
   * the per-mille step that holds the nearer bound.
   */
  lemma ScrubSnapsToSelection(e: Editor, progress: int)
    requires 0 < e.duration && InVideo(e) && e.startPosition <= e.endPosition
    requires var time := ScrubTime(e.duration, progress); time < e.startPosition || e.endPosition < time
    ensures var r := OnPlayerIndicatorSeekChanged(e, progress, true);
      var bound := if ScrubTime(e.duration, progress) < e.startPosition then e.startPosition else e.endPosition;
      && 0 <= r.scrub <= PerMille
      && r.scrub * e.duration <= PerMille * bound < (r.scrub + 1) * e.duration
  {
  }

  /** `onPlayerIndicatorSeekStart`: halt playback and report the position once. */
  function OnPlayerIndicatorSeekStart(e: Editor): (r: Editor)
    ensures !r.player.playing && r.player.position == e.player.position && SameSelection(e, r)
    ensures e.duration != 0 ==> (r.resetSeekBar <==> e.resetSeekBar || e.endPosition <= e.player.position)
  {
    NotifyProgressUpdate(Halt(e))
  }

  /**
   * `onPlayerIndicatorSeekStop`: halt playback, seek to the scrubber's time
   * (narrowed to `Int`) and report it.
   */
  function OnPlayerIndicatorSeekStop(e: Editor, progress: int): (r: Editor)
    ensures !r.player.playing && r.player.position == WrapInt(ScrubTime(e.duration, progress)) && SameSelection(e, r)
    ensures 0 <= e.duration <= IntMax && 0 <= progress <= PerMille ==> 0 <= r.player.position <= e.duration
  {
    var target := WrapInt(ScrubTime(e.duration, progress));
    ScrubTimeWithin(e.duration, progress);
    NotifyProgressUpdate(Halt(e).(player := Player(false, target)))
  }

  // ---------------------------------------------------------------- preparing the video

  /** `setThumbValue` for both thumbs when the window places them. */
  function Place(bar: SeekBar, thumbValues: Option<(int, int)>): (r: SeekBar)
    requires TwoThumbs(bar.thumbs)
    ensures TwoThumbs(r.thumbs) && r.(thumbs := bar.thumbs) == bar
  {
    match thumbValues
    case None => bar
    case Some((a, b)) => SetThumbValue(SetThumbValue(bar, Left, a), Right, b)
  }

  /**
   * The selection `setSeekBarPosition` records for window `w`: its own bounds,
   * or, read by the thumbs, the times of the percentages it places.
   */
  function Selected(duration: int, w: Window, reading: BoundsReading): (int, int) {
    if reading == ThumbBounds && w.thumbValues.Some? then
      (ThumbTime(duration, w.thumbValues.value.0 as real), ThumbTime(duration, w.thumbValues.value.1 as real))
    else
      (w.start, w.end)
  }

  /**
   * `setSeekBarPosition`: the window for the duration and the bounds, the
   * thumbs placed on its percentages, the player at the selection's start, the
   * span cap read off the thumbs, and the two stop events this fires heard by
   * the editor, which halts playback. As written the selection is the window;
   * read by the thumbs it is what the placed thumbs stand for.
   */
  function SetSeekBarPosition(t: Trimmer, reading: BoundsReading): (r: Result<Trimmer>)
    requires TwoThumbs(t.bar.thumbs)
    ensures var e := t.editor;
      r.Failure? <==> e.duration == 0 && (MaxBranch(e.duration, e.maxDuration) || MinBranch(e.duration, e.maxDuration, e.minDuration))
    ensures r.Success? ==>
      var w := InitialWindow(t.editor.duration, t.editor.maxDuration, t.editor.minDuration).value;
      var start := r.value.editor.startPosition;
      && r.value.editor == t.editor.(startPosition := start, endPosition := r.value.editor.endPosition,
                                     timeVideo := t.editor.duration, player := Player(false, start), playIconVisible := true)
      && r.value.bar == InitMaxWidth(Place(t.bar, w.thumbValues)).bar
      && TwoThumbs(r.value.bar.thumbs) && r.value.bar.maxWidth == Span(r.value.bar)
      && (reading == WindowBounds || w.thumbValues.None? ==>
            start == w.start && r.value.editor.endPosition == w.end)
      && (reading == ThumbBounds && w.thumbValues.Some? ==>
            && start == ThumbTime(t.editor.duration, r.value.bar.thumbs[Left].value)
            && r.value.editor.endPosition == ThumbTime(t.editor.duration, r.value.bar.thumbs[Right].value))
  {
    var e := t.editor;
    match InitialWindow(e.duration, e.maxDuration, e.minDuration)
    case Failure(f) => Failure(f)
    case Success(w) =>
      var bar := Place(t.bar, w.thumbValues);
      var (start, end) := Selected(e.duration, w, reading);
      var e1 := e.(startPosition := start, endPosition := end, player := e.player.(position := start), timeVideo := e.duration);
      var st := InitMaxWidth(bar);
      StopEventsHalt(e1, st.events);
      Success(Trimmer(Feed(e1, st.events), st.bar))
  }

  /** Stop events only halt playback, however many arrive. */
  lemma {:induction false} StopEventsHalt(e: Editor, events: seq<RangeEvent>)
    requires 0 < |events|
    requires forall k :: 0 <= k < |events| ==> events[k].kind == SeekStop
    ensures Feed(e, events) == Halt(e)
    decreases |events|
  {
    if 1 < |events| {
      StopEventsHalt(Halt(e), events[1..]);
    }
  }

  /**
   * `onVideoPrepared`: runs once. It records the player's duration, shows the
   * play icon and sets the initial window; later calls change nothing.
   */
  function OnVideoPrepared(t: Trimmer, playerDuration: int, reading: BoundsReading): (r: Result<Trimmer>)
    requires TwoThumbs(t.bar.thumbs)
    ensures t.editor.prepared ==> r == Success(t)
    ensures !t.editor.prepared ==>
      r == SetSeekBarPosition(t.(editor := t.editor.(prepared := true, playIconVisible := true, duration := playerDuration)), reading)
    ensures r.Success? ==> r.value.editor.prepared
  {
    if t.editor.prepared then
      Success(t)
    else
      SetSeekBarPosition(t.(editor := t.editor.(prepared := true, playIconVisible := true, duration := playerDuration)), reading)
  }

  /** A second `onVideoPrepared` is a no-op, whatever duration it reports. */
  lemma PreparedOnlyOnce(t: Trimmer, d1: int, d2: int, reading: BoundsReading)
    requires TwoThumbs(t.bar.thumbs)
    requires OnVideoPrepared(t, d1, reading).Success?
    ensures var p := OnVideoPrepared(t, d1, reading).value;
      TwoThumbs(p.bar.thumbs) && OnVideoPrepared(p, d2, reading) == Success(p)
  {
  }

  // ---------------------------------------------------------------- the trimmer session

  /**
   * What can happen to the widget: a touch on the selector, a poll tick, a tap,
   * or the scrubber. A tick carries the position the player has reached.
   */
  datatype Input =
    | TouchBar(touch: Touch)
    | Tick(position: int)
    | PlayPause
    | ScrubChanged(progress: int, fromUser: bool)
    | ScrubStart
    | ScrubStop(progress: int)

  /**
   * One input. A selector touch is handled by the selector and its events are
   * heard by the editor. A tick is one poll: a playing player has advanced to
   * the tick's position, a paused one has stayed where it was. The rest go to
   * the editor alone.
   */
  function Handle(t: Trimmer, input: Input, g: GuardReading): (r: Result<Trimmer>)
    requires WellFormed(t.bar) && t.bar.pixelRangeMax != 0.0
    ensures r.Failure? <==> input.TouchBar? && input.touch.action == Move && t.bar.currentThumb == -1
    ensures r.Success? ==> WellFormed(r.value.bar) && r.value.bar.pixelRangeMax == t.bar.pixelRangeMax
    ensures r.Success? ==> r.value.editor.duration == t.editor.duration && r.value.bar.thumbWidth == t.bar.thumbWidth
    ensures r.Success? && !input.TouchBar? ==> r.value.bar == t.bar && SameSelection(t.editor, r.value.editor)
  {
    match input
    case TouchBar(touch) =>
      var h :- OnTouchEvent(t.bar, touch, g);
      Success(Trimmer(Feed(t.editor, h.events), h.bar))
    case Tick(position) => Success(t.(editor := NotifyProgressUpdate(Advance(t.editor, position))))
    case PlayPause => Success(t.(editor := OnClickVideoPlayPause(t.editor)))
    case ScrubChanged(progress, fromUser) => Success(t.(editor := OnPlayerIndicatorSeekChanged(t.editor, progress, fromUser)))
    case ScrubStart => Success(t.(editor := OnPlayerIndicatorSeekStart(t.editor)))
    case ScrubStop(progress) => Success(t.(editor := OnPlayerIndicatorSeekStop(t.editor, progress)))
  }

  /** The player as a poll finds it: moved on to `position` while playing, unmoved while paused. */
  function Advance(e: Editor, position: int): (r: Editor)
    ensures r.player.playing == e.player.playing && SameSelection(e, r)
    ensures r.player.position == (if e.player.playing then position else e.player.position)
    ensures r.(player := e.player) == e
  {
    if e.player.playing then e.(player := e.player.(position := position)) else e
  }

  /** A session: inputs handled one after another, stopping at a throw. */
  function Session(t: Trimmer, inputs: seq<Input>, g: GuardReading): (r: Result<Trimmer>)
    requires WellFormed(t.bar) && t.bar.pixelRangeMax != 0.0
    ensures r.Success? ==> WellFormed(r.value.bar) && r.value.bar.pixelRangeMax == t.bar.pixelRangeMax
    ensures r.Success? ==> r.value.bar.thumbWidth == t.bar.thumbWidth
    decreases |inputs|
  {
    if inputs == [] then
      Success(t)
    else
      var next :- Handle(t, inputs[0], g);
      Session(next, inputs[1..], g)
  }

  /**
   * Within a session playback stops at the end of the selection. Pressing play
   * on a paused trimmer and then a poll that finds the player at `position`
   * keeps it playing exactly while `position` is before the end; at or past
   * the end it halts and asks for a rewind, and the next press replays the
   * selection from its start.
   */
  lemma PlaybackStopsAtEnd(t: Trimmer, position: int, g: GuardReading)
    requires WellFormed(t.bar) && t.bar.pixelRangeMax != 0.0
    requires t.editor.duration != 0 && !t.editor.player.playing
    ensures var r := Session(t, [PlayPause, Tick(position)], g);
      && r.Success? && r.value.editor.player.position == position
      && (r.value.editor.player.playing <==> position < t.editor.endPosition)
      && (t.editor.endPosition <= position ==> r.value.editor.resetSeekBar && r.value.editor.playIconVisible)
    ensures t.editor.endPosition <= position ==>
      var r := Session(t, [PlayPause, Tick(position), PlayPause], g);
      r.Success? && r.value.editor.player == Player(true, t.editor.startPosition)
  {
    var played := Handle(t, PlayPause, g).value;
    var polled := Handle(played, Tick(position), g).value;
    assert Session(t, [PlayPause, Tick(position)], g) == Session(played, [Tick(position)], g);
    assert Session(played, [Tick(position)], g) == Session(polled, [], g);
    assert Session(t, [PlayPause, Tick(position), PlayPause], g) == Session(played, [Tick(position), PlayPause], g);
    assert Session(played, [Tick(position), PlayPause], g) == Session(polled, [PlayPause], g);
  }

  /**
   * The trimmer invariant: a well-formed selector with a positive range, the
   * layout invariant and a span cap at least a handle wide, and a selection
   * inside the video.
   */
  predicate Sound(t: Trimmer) {
    && WellFormed(t.bar) && 0.0 < t.bar.pixelRangeMax && 0.0 <= t.bar.thumbWidth
    && UniformWidth(t.bar) && Ordered(t.bar) && t.bar.thumbWidth <= t.bar.maxWidth
    && InVideo(t.editor)
  }

  /** Every seek a touch on a sound selector fires reports a percentage. */
  lemma TouchSeeksArePercentages(s: SeekBar, touch: Touch, g: GuardReading)
    requires WellFormed(s) && 0.0 < s.pixelRangeMax && 0.0 <= s.thumbWidth
    requires UniformWidth(s) && Ordered(s) && s.thumbWidth <= s.maxWidth
    ensures var r := OnTouchEvent(s, touch, g);
      r.Success? ==> SeeksArePercentages(r.value.events)
  {
    var r := OnTouchEvent(s, touch, g);
    if r.Success? && touch.action == Move {
      var m := MoveStep(s, touch.x, g);
      assert r.value.bar == m.bar && r.value.events == m.events;
      MoveReportsPositions(s, touch.x, g);
      MoveKeepsLayout(s, touch.x, g);
      forall k | 0 <= k < |m.events| && m.events[k].kind == Seek
        ensures 0.0 <= m.events[k].value <= ScaleRangeMax
      {
        assert ReportsPosition(m.bar, m.events[k]);
        OrderedPercent(m.bar, m.events[k].index);
      }
    }
  }

  /** Every input keeps a sound trimmer sound. */
  lemma HandleKeepsSound(t: Trimmer, input: Input, g: GuardReading)
    requires Sound(t)
    ensures var r := Handle(t, input, g);
      r.Success? ==> Sound(r.value)
  {
    if input.TouchBar? {
      var h := OnTouchEvent(t.bar, input.touch, g);
      if h.Success? {
        TouchSeeksArePercentages(t.bar, input.touch, g);
        FeedKeepsInVideo(t.editor, h.value.events);
      }
    }
  }

  /**
   * However the selector is dragged, tapped or scrubbed, the selection of a
   * sound trimmer stays inside the video and the thumbs never cross.
   */
  lemma {:induction false} SessionKeepsSound(t: Trimmer, inputs: seq<Input>, g: GuardReading)
    requires Sound(t)
    ensures var r := Session(t, inputs, g);
      r.Success? ==> Sound(r.value)
    decreases |inputs|
  {
    if inputs != [] {
      var next := Handle(t, inputs[0], g);
      if next.Success? {
        HandleKeepsSound(t, inputs[0], g);
        SessionKeepsSound(next.value, inputs[1..], g);
      }
    }
  }

  /**
   * Preparing a video on a laid-out selector yields a sound trimmer when the
   * bounds give a window inside the video: a reachable non-negative maximum,
   * or no bound that applies. This holds in both readings of the bounds.
   */
  lemma PrepareEstablishesSound(t: Trimmer, playerDuration: int, reading: BoundsReading)
    requires WellFormed(t.bar) && 0.0 < t.bar.pixelRangeMax && 0.0 <= t.bar.thumbWidth <= t.bar.pixelRangeMax
    requires UniformWidth(t.bar) && Ordered(t.bar) && !t.editor.prepared
    requires 0 < playerDuration
    requires var e := t.editor;
      (MaxBranch(playerDuration, e.maxDuration) && 0 <= e.maxDuration)
      || (!MaxBranch(playerDuration, e.maxDuration) && !MinBranch(playerDuration, e.maxDuration, e.minDuration))
    ensures var r := OnVideoPrepared(t, playerDuration, reading);
      r.Success? && Sound(r.value)
  {
    var e := t.editor;
    var w := InitialWindow(playerDuration, e.maxDuration, e.minDuration);
    if MaxBranch(playerDuration, e.maxDuration) {
      MaxWindowWithinVideo(playerDuration, e.maxDuration, e.minDuration);
      var (a, b) := w.value.thumbValues.value;
      PlacedValuesAreOrdered(t.bar, a, b);
      SeekPercentWithinVideo(playerDuration, a as real);
      SeekPercentWithinVideo(playerDuration, b as real);
    }
  }

  // ---------------------------------------------------------------- bounds against thumbs

  /**
   * The selection brackets the thumbs: every value follows its thumb's pixel,
   * the start is no later than the LEFT thumb's time and the end no earlier
   * than the RIGHT thumb's.
   */
  predicate Aligned(t: Trimmer)
    requires TwoThumbs(t.bar.thumbs)
  {
    && ValuesFollowThumbs(t.bar)
    && t.editor.startPosition <= ThumbTime(t.editor.duration, t.bar.thumbs[Left].value)
    && ThumbTime(t.editor.duration, t.bar.thumbs[Right].value) <= t.editor.endPosition
  }

  /**
   * On a view wider than two handles, a sound trimmer whose selection brackets
   * its thumbs never has its start after its end.
   */
  lemma AlignedSelectionIsOrdered(t: Trimmer)
    requires Sound(t) && Aligned(t) && t.bar.thumbWidth < t.bar.pixelRangeMax
    ensures t.editor.startPosition <= t.editor.endPosition
  {
    FollowingValuesAreOrdered(t.bar);
    ThumbTimeMonotone(t.editor.duration, t.bar.thumbs[Left].value, t.bar.thumbs[Right].value);
  }

  /**
   * The seeks of one drag, heard by the editor: the bound of every thumb that
   * was reported becomes the time of its new value; the other bound stays.
   */
  lemma FeedMoveAligns(t: Trimmer, x: real, g: GuardReading)
    requires Sound(t) && Aligned(t) && t.bar.currentThumb != -1
    ensures var st := MoveStep(t.bar, x, g);
      Aligned(Trimmer(Feed(t.editor, st.events), st.bar))
  {
    var st, i := MoveStep(t.bar, x, g), t.bar.currentThumb;
    MoveKeepsValuesFollowing(t.bar, x, g);
    MoveSettlesValues(t.bar, x, g);
    var seek := RangeEvent(Seek, i, st.bar.thumbs[i].value);
    if |st.events| == 1 {
      assert st.events == [seek];
      OneSeekAligns(t, st.bar, i);
    } else {
      var pulled := RangeEvent(Seek, 1 - i, st.bar.thumbs[1 - i].value);
      assert st.events == [pulled, seek];
      TwoSeeksAlign(t, st.bar, i);
    }
  }

  /**
   * One seek of thumb `i` moves its bound onto the time of its new value; the
   * other thumb, unchanged, stays inside the other bound.
   */
  lemma OneSeekAligns(t: Trimmer, bar: SeekBar, i: int)
    requires TwoThumbs(t.bar.thumbs) && TwoThumbs(bar.thumbs) && 0 <= i <= 1
    requires Aligned(t) && ValuesFollowThumbs(bar)
    requires bar.thumbs[1 - i].value == t.bar.thumbs[1 - i].value
    ensures Aligned(Trimmer(Feed(t.editor, [RangeEvent(Seek, i, bar.thumbs[i].value)]), bar))
  {
    var ev := RangeEvent(Seek, i, bar.thumbs[i].value);
    assert Feed(t.editor, [ev]) == OnRangeEvent(t.editor, ev);
  }

  /** Seeks of both thumbs, the other one first, move both bounds onto the thumbs' times. */
  lemma TwoSeeksAlign(t: Trimmer, bar: SeekBar, i: int)
    requires TwoThumbs(t.bar.thumbs) && TwoThumbs(bar.thumbs) && 0 <= i <= 1
    requires ValuesFollowThumbs(bar)
    ensures var events := [RangeEvent(Seek, 1 - i, bar.thumbs[1 - i].value), RangeEvent(Seek, i, bar.thumbs[i].value)];
      Aligned(Trimmer(Feed(t.editor, events), bar))
  {
    var ev0, ev1 := RangeEvent(Seek, 1 - i, bar.thumbs[1 - i].value), RangeEvent(Seek, i, bar.thumbs[i].value);
    var e1 := OnRangeEvent(t.editor, ev0);
    assert [ev0, ev1][1..] == [ev1];
    assert Feed(t.editor, [ev0, ev1]) == Feed(e1, [ev1]);
    assert Feed(e1, [ev1]) == OnRangeEvent(e1, ev1);
  }

  /** Every input keeps a sound trimmer's selection bracketing its thumbs. */
  lemma HandleKeepsAligned(t: Trimmer, input: Input, g: GuardReading)
    requires Sound(t) && Aligned(t)
    ensures var r := Handle(t, input, g);
      r.Success? ==> Sound(r.value) && Aligned(r.value)
  {
    HandleKeepsSound(t, input, g);
    if input.TouchBar? {
      var h := OnTouchEvent(t.bar, input.touch, g);
      if h.Success? {
        match input.touch.action
        case Move =>
          var st := MoveStep(t.bar, input.touch.x, g);
          assert h.value.bar == st.bar && h.value.events == st.events;
          FeedMoveAligns(t, input.touch.x, g);
        case Down =>
          assert h.value.bar.thumbs[Left].value == t.bar.thumbs[Left].value && h.value.bar.thumbs[Left].pos == t.bar.thumbs[Left].pos;
          assert h.value.bar.thumbs[Right].value == t.bar.thumbs[Right].value && h.value.bar.thumbs[Right].pos == t.bar.thumbs[Right].pos;
          if h.value.events != [] {
            assert Feed(t.editor, h.value.events) == OnRangeEvent(t.editor, h.value.events[0]);
          }
        case Up =>
          if h.value.events != [] {
            assert Feed(t.editor, h.value.events) == OnRangeEvent(t.editor, h.value.events[0]);
          }
        case Other =>
      }
    }
  }

  /**
   * On a view wider than two handles, however a sound trimmer whose selection
   * brackets its thumbs is dragged, tapped, polled or scrubbed, it stays so and
   * its start never passes its end.
   */
  lemma {:induction false} SessionKeepsSelectionOrdered(t: Trimmer, inputs: seq<Input>, g: GuardReading)
    requires Sound(t) && Aligned(t) && t.bar.thumbWidth < t.bar.pixelRangeMax
    ensures var r := Session(t, inputs, g);
      r.Success? ==>
        && Sound(r.value) && Aligned(r.value) && r.value.bar.thumbWidth == t.bar.thumbWidth
        && r.value.editor.startPosition <= r.value.editor.endPosition
    decreases |inputs|
  {
    if inputs == [] {
      AlignedSelectionIsOrdered(t);
    } else {
      var next := Handle(t, inputs[0], g);
      if next.Success? {
        HandleKeepsAligned(t, inputs[0], g);
        SessionKeepsSelectionOrdered(next.value, inputs[1..], g);
      }
    }
  }

  /**
   * Read by the thumbs, preparing a video as in `PrepareEstablishesSound` on a
   * selector whose values follow its thumbs also makes the selection bracket
   * the thumbs, with its start no later than its end.
   */
  lemma PrepareAligns(t: Trimmer, playerDuration: int)
    requires WellFormed(t.bar) && 0.0 < t.bar.pixelRangeMax && 0.0 <= t.bar.thumbWidth <= t.bar.pixelRangeMax
    requires UniformWidth(t.bar) && Ordered(t.bar) && !t.editor.prepared && ValuesFollowThumbs(t.bar)
    requires 0 < playerDuration
    requires var e := t.editor;
      (MaxBranch(playerDuration, e.maxDuration) && 0 <= e.maxDuration)
      || (!MaxBranch(playerDuration, e.maxDuration) && !MinBranch(playerDuration, e.maxDuration, e.minDuration))
    ensures var r := OnVideoPrepared(t, playerDuration, ThumbBounds);
      && r.Success? && Sound(r.value) && Aligned(r.value)
      && r.value.editor.startPosition <= r.value.editor.endPosition
  {
    PrepareEstablishesSound(t, playerDuration, ThumbBounds);
    var e := t.editor;
    var w := InitialWindow(playerDuration, e.maxDuration, e.minDuration);
    if MaxBranch(playerDuration, e.maxDuration) {
      MaxWindowWithinVideo(playerDuration, e.maxDuration, e.minDuration);
      var (a, b) := w.value.thumbValues.value;
      PlacedValuesFollow(t.bar, a, b);
      ThumbTimeMonotone(playerDuration, a as real, b as real);
    } else {
      var d := playerDuration as real;
      assert PercentOf(d, 0.0) == 0.0 && PercentOf(d, ScaleRangeMax) == d;
      ThumbTimeMonotone(playerDuration, 0.0, t.bar.thumbs[Left].value);
      ThumbTimeMonotone(playerDuration, t.bar.thumbs[Right].value, ScaleRangeMax);
    }
  }

  /**
   * A trimmer before its video is prepared: 30 px handles on a 1030 px view,
   * measured once, with a 60 s maximum and a 0 s minimum.
   */
  function SampleTrimmer(): Trimmer {
    var handle := Some(Bitmap(30, 30));
    var measured := Measure(Init(handle, handle), 1030);
    var bar := if measured.Success? then measured.value.bar else Init(handle, handle);
    Trimmer(NewEditor().(maxDuration := 60000, minDuration := 0), bar)
  }

  /** Grabbing the RIGHT thumb at 836.1 px and dragging it to 0. */
  function SampleDrag(): seq<Input> {
    [TouchBar(Touch(Down, 836.1)), TouchBar(Touch(Move, 0.0))]
  }

  /**
   * As written, the selection can be inverted while the trimmer stays sound.
   * Preparing a 90 s video on the sample trimmer selects 15000..75000 ms but
   * places the thumbs on the truncated 16 % and 83 %. Dragging RIGHT onto LEFT
   * reports 16.0756 %, so the end becomes 14468 ms, before the 15000 ms start.
   */
  lemma WindowBoundsInvertSelection()
    ensures var p := OnVideoPrepared(SampleTrimmer(), 90000, WindowBounds);
      && p.Success? && Sound(p.value)
      && p.value.editor.startPosition == 15000 && p.value.editor.endPosition == 75000
      && p.value.bar.thumbs[Left].value == 16.0 && p.value.bar.thumbs[Right].value == 83.0
      && var r := Session(p.value, SampleDrag(), AsWritten);
      && r.Success? && Sound(r.value)
      && r.value.editor.startPosition == 15000 && r.value.editor.endPosition == 14468
      && r.value.editor.endPosition < r.value.editor.startPosition
  {
    SampleSession(WindowBounds);
  }

  /**
   * Read by the thumbs, the same preparation selects 14400..74700 ms and the
   * same drag leaves the selection 14400..14468 ms: start before end.
   */
  lemma ThumbBoundsKeepSampleOrdered()
    ensures var p := OnVideoPrepared(SampleTrimmer(), 90000, ThumbBounds);
      && p.Success? && Sound(p.value) && Aligned(p.value)
      && p.value.editor.startPosition == 14400 && p.value.editor.endPosition == 74700
      && var r := Session(p.value, SampleDrag(), AsWritten);
      && r.Success? && Sound(r.value)
      && r.value.editor.startPosition == 14400 && r.value.editor.endPosition == 14468
  {
    SampleSession(ThumbBounds);
  }

  /** The sample session under either reading: the drag pulls RIGHT onto LEFT's edge and sets only the end. */
  lemma SampleSession(reading: BoundsReading)
    ensures var p := OnVideoPrepared(SampleTrimmer(), 90000, reading);
      && p.Success? && Sound(p.value)
      && p.value.editor.startPosition == (if reading == WindowBounds then 15000 else 14400)
      && p.value.editor.endPosition == (if reading == WindowBounds then 75000 else 74700)
      && p.value.bar.thumbs[Left].value == 16.0 && p.value.bar.thumbs[Right].value == 83.0
      && var r := Session(p.value, SampleDrag(), AsWritten);
      && r.Success? && Sound(r.value)
      && r.value.editor.startPosition == p.value.editor.startPosition && r.value.editor.endPosition == 14468
  {
    var t := SampleTrimmer();
    assert t.bar.pixelRangeMax == 1000.0 && t.bar.thumbWidth == 30.0;
    var p := OnVideoPrepared(t, 90000, reading);
    assert InitialWindow(90000, 60000, 0) == Success(Window(15000, 75000, Some((16, 83))));
    assert p.Success?;
    var b := p.value.bar;
    assert b.thumbs[Left].pos == 155.2 && b.thumbs[Right].pos == 835.1;
    PrepareEstablishesSound(t, 90000, reading);
    assert PercentOf(90000.0, 16.0) == 14400.0 && PercentOf(90000.0, 83.0) == 74700.0;
    SampleGrab(p.value);
    var down := Handle(p.value, TouchBar(Touch(Down, 836.1)), AsWritten);
    SampleRelease(down.value);
    var move := Handle(down.value, TouchBar(Touch(Move, 0.0)), AsWritten);
    assert Session(p.value, SampleDrag(), AsWritten) == Session(down.value, [TouchBar(Touch(Move, 0.0))], AsWritten);
    assert Session(down.value, [TouchBar(Touch(Move, 0.0))], AsWritten) == Session(move.value, [], AsWritten);
    HandleKeepsSound(p.value, TouchBar(Touch(Down, 836.1)), AsWritten);
    HandleKeepsSound(down.value, TouchBar(Touch(Move, 0.0)), AsWritten);
  }

  /** The sample grab: a DOWN at 836.1 px selects RIGHT and anchors it, and the editor ignores the start event. */
  lemma SampleGrab(p: Trimmer)
    requires Sound(p) && p.bar.pixelRangeMax == 1000.0 && p.bar.thumbWidth == 30.0
    requires p.bar.thumbs[Left].pos == 155.2 && p.bar.thumbs[Right].pos == 835.1
    ensures var r := Handle(p, TouchBar(Touch(Down, 836.1)), AsWritten);
      && r.Success? && r.value.editor == p.editor
      && r.value.bar == p.bar.(currentThumb := Right, thumbs := p.bar.thumbs[Right := p.bar.thumbs[Right].(lastTouchX := 836.1)])
  {
    assert ClosestThumb(p.bar.thumbs, 30.0, 836.1) == Right;
    var h := OnTouchEvent(p.bar, Touch(Down, 836.1), AsWritten);
    assert h.value.events == [RangeEvent(SeekStart, Right, p.bar.thumbs[Right].value)];
    assert Feed(p.editor, h.value.events) == OnRangeEvent(p.editor, h.value.events[0]);
  }

  /**
   * The sample drag: RIGHT, grabbed at 836.1 px, dragged to 0 is pinned a
   * handle after LEFT, at 185.2 px, which is 16.0756 %; the end becomes
   * 14468 ms of the 90 s video and the start stays.
   */
  lemma SampleRelease(d: Trimmer)
    requires Sound(d) && d.bar.pixelRangeMax == 1000.0 && d.bar.thumbWidth == 30.0 && d.editor.duration == 90000
    requires d.bar.currentThumb == Right && d.bar.thumbs[Right].lastTouchX == 836.1
    requires d.bar.thumbs[Left].pos == 155.2 && d.bar.thumbs[Right].pos == 835.1
    ensures var r := Handle(d, TouchBar(Touch(Move, 0.0)), AsWritten);
      && r.Success? && r.value.editor.startPosition == d.editor.startPosition && r.value.editor.endPosition == 14468
  {
    var st := MoveStep(d.bar, 0.0, AsWritten);
    assert st == SetThumbPos(d.bar, Right, 185.2);
    var v := PixelToScale(1000.0, 30.0, Right, 185.2);
    assert v == 16.0756;
    assert st.events == [RangeEvent(Seek, Right, v)];
    assert Feed(d.editor, st.events) == OnRangeEvent(d.editor, st.events[0]);
    assert PercentOf(90000.0, v) == 14468.04;
  }

  /**
   * The rewind request is raised only by a progress report at or past the end
   * of the selection, with playback halted.
   */
  lemma ResetOnlyAtEnd(t: Trimmer, input: Input, g: GuardReading)
    requires WellFormed(t.bar) && t.bar.pixelRangeMax != 0.0
    requires !t.editor.resetSeekBar
    ensures var r := Handle(t, input, g);
      r.Success? && r.value.editor.resetSeekBar ==>
        && (input.Tick? || input.ScrubStart? || input.ScrubStop?)
        && r.value.editor.endPosition <= r.value.editor.player.position
        && !r.value.editor.player.playing
  {
    if input.TouchBar? {
      var h := OnTouchEvent(t.bar, input.touch, g);
      if h.Success? {
        FeedKeepsReset(t.editor, h.value.events);
      }
    }
  }

  /** The selector's events never touch the rewind request. */
  lemma {:induction false} FeedKeepsReset(e: Editor, events: seq<RangeEvent>)
    ensures Feed(e, events).resetSeekBar == e.resetSeekBar
    decreases |events|
  {
    if events != [] {
      FeedKeepsReset(OnRangeEvent(e, events[0]), events[1..]);
    }
  }

  /** A tap leaves the rewind request raised only when it pauses a playing video. */
  lemma PlayConsumesReset(t: Trimmer, g: GuardReading)
    requires WellFormed(t.bar) && t.bar.pixelRangeMax != 0.0
    ensures var r := Handle(t, PlayPause, g);
      r.Success? && (r.value.editor.resetSeekBar <==> t.editor.player.playing && t.editor.resetSeekBar)
  {
  }
}
