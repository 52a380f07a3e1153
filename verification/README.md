# Video trimmer core in Dafny

A model of the view layer of the `video-trimmer` Android library: the
dual-thumb range selector (`RangeSeekBarView`), its two handles (`Thumb`), the
passive progress indicator (`ProgressBarView`), the thumbnail strip
(`TimeLineView`) and the coordinator that ties playback to the selection
(`VideoEditor`). Every Android callback becomes a pure function from the
widget's state (and the event) to the new state together with the listener
callbacks it fires, so that a touch gesture, a poll of the player or a tap is
a state transition whose effects can be stated and proved.

Files:

- `outcomes.dfy`: `Option`, `Result` and the exceptions the code can throw
  (`IndexOutOfBoundsException`, `ArithmeticException` on `Long` division by
  zero, `IllegalArgumentException`, `NumberFormatException`).
- `kotlin_numbers.dfy`: Kotlin's numeric semantics where they matter. `Int`
  products wrap modulo 2^32 (`WrapInt`), `/` on `Int`/`Long` truncates toward
  zero (`Quot`), `Float.toLong()` truncates (`Trunc`), `Float.toInt()`
  saturates (`FloatToInt`). `Float` is modelled as an exact `real`.
- `graphics.dfy`: bitmap sizes and `Rect`.
- `thumb.dfy`: `Thumb.kt`.
- `range_seek_bar.dfy`: `RangeSeekBarView.kt`. It covers pixel/percentage
  conversion, first-run layout, hit testing, dragging with the two clamps and
  the span cap, and listener fan-out.
- `progress_bar.dfy`: `ProgressBarView.kt`.
- `time_line.dfy`: `TimeLineView.kt`. It covers the number of sampled frames,
  their times, the frames kept, and where each is drawn.
- `time_label.dfy`: the export range `VideoEditor.saveVideo` reads back from
  the selection label. It covers the `\d{2}:\d{2}` scan and
  `timeToMilliseconds`, with Kotlin's `split`, `trim` and `toInt`.
- `video_editor.dfy`: `VideoEditor.kt`. It covers duration bounds, the
  initial window, seeking, the scrubber, play/pause and progress polling. It
  also composes the editor with the selector into a trimmer that handles a
  stream of inputs.

The central invariant is `VideoEditor.Sound`: the thumbs never cross, they stay
inside the pixel range, and the selected `[start, end]` lies inside the video.
`VideoEditor.PrepareEstablishesSound` shows it holds after the video is
prepared, provided the bounds yield a window inside the video.
`VideoEditor.SessionKeepsSound` shows every drag, tap, poll and scrub keeps it.
Both readings of the leftward span guard are covered (see Findings).

`Sound` does not order the selection. As written, `setSeekBarPosition` keeps the
window's millisecond bounds while the thumbs stand on truncated percentages, so a
drag can put the end before the start (see Findings). `VideoEditor.Aligned` states
that the selection brackets the thumbs' own times.
`VideoEditor.SessionKeepsSelectionOrdered` shows that `Aligned`, together with
`Sound`, survives every input and keeps the start no later than the end.
`VideoEditor.PrepareAligns` shows that preparing a video establishes it when the
bounds are read back from the placed thumbs.

Behaviour of the code worth noting:

- `pixelToScale` is not the inverse of `scaleToPixel`. A round trip is exact
  only at one endpoint or for zero-width handles.
- A MOVE while no thumb is selected indexes `thumbs[-1]` and throws, so it is
  not a no-op.
- The span cap is not an invariant. The edge clamps ignore it, and the
  leftward guard reads the wrong span.
- The minimum-duration branch can start the selection before the video and
  place thumbs at percentages outside `[0, 100]`.
- The window's bounds and the thumbs it places disagree: the bounds are exact
  milliseconds, but the thumbs stand on percentages truncated to whole numbers.
- `ProgressBarView` is never registered as a listener by the editor. Its
  model therefore stands alone.
- The editor registers exactly one progress listener. Notifying "all"
  listeners is the same as notifying the first one.
- `TimeLineView`'s `videoLengthInMs` is milliseconds times 1000. It is passed
  where microseconds are expected, so it is used here as a plain length.

## Model

All source paths are under `video-trimmer/src/main/java/com/redevrx/video_trimmer/view/`; the cells repeat it in full.

| member | source | states |
|---|---|---|
| Thumbs.WidthBitmap | video-trimmer/src/main/java/com/redevrx/video_trimmer/view/Thumb.kt:19-27 | the handle width is its image's width, and 0 when decoding gave no image |
| Thumbs.HeightBitmap | video-trimmer/src/main/java/com/redevrx/video_trimmer/view/Thumb.kt:19-27 | the handle height is its image's height, and 0 without an image |
| Thumbs.WithBitmap | video-trimmer/src/main/java/com/redevrx/video_trimmer/view/Thumb.kt:19-24 | the bitmap setter changes both derived dimensions together and leaves index, value, position and touch anchor alone |
| Thumbs.NewThumb | video-trimmer/src/main/java/com/redevrx/video_trimmer/view/Thumb.kt:13-34 | a new thumb starts at value 0 and position 0, with no image size |
| Thumbs.InitThumbs | video-trimmer/src/main/java/com/redevrx/video_trimmer/view/Thumb.kt:40-55 | exactly two thumbs, LEFT (index 0) then RIGHT (index 1), both at 0, each carrying its own handle image |
| Thumbs.GetWidthBitmap | video-trimmer/src/main/java/com/redevrx/video_trimmer/view/Thumb.kt:57 | the shared handle width is the first thumb's image width, and 0 when that thumb has no image |
| Thumbs.GetHeightBitmap | video-trimmer/src/main/java/com/redevrx/video_trimmer/view/Thumb.kt:59 | the shared handle height is the first thumb's image height, and 0 when that thumb has no image |
| Thumbs.HandleSizeIgnoresRightImage | video-trimmer/src/main/java/com/redevrx/video_trimmer/view/Thumb.kt:40-59 | changing the RIGHT image never changes the selector's handle size, which is the LEFT image's width |
| RangeSeekBar.ScaleToPixel | video-trimmer/src/main/java/com/redevrx/video_trimmer/view/RangeSeekBarView.kt:193-202 | LEFT's left edge runs linearly over `[0, P - W]` and RIGHT's over `[W, P]` as the percentage runs over `[0, 100]` |
| RangeSeekBar.PixelToScale | video-trimmer/src/main/java/com/redevrx/video_trimmer/view/RangeSeekBarView.kt:182-191 | the closed form of the conversion back: an affine map whose slope is `100 (P + W) / P^2` |
| RangeSeekBar.OrderedPercent | video-trimmer/src/main/java/com/redevrx/video_trimmer/view/RangeSeekBarView.kt:182-191 | on a layout that keeps the thumbs ordered inside the range, either thumb's position converts to a percentage in `[0, 100]` |
| RangeSeekBar.ConversionEndpoints | video-trimmer/src/main/java/com/redevrx/video_trimmer/view/RangeSeekBarView.kt:182-202 | both conversions send 0 % to pixel 0 for LEFT, and 100 % to the range end for RIGHT, in both directions |
| RangeSeekBar.LeftRoundTrip | video-trimmer/src/main/java/com/redevrx/video_trimmer/view/RangeSeekBarView.kt:182-202 | a LEFT percentage taken to a pixel and back is multiplied by `1 - (W/P)^2`, so the trip is exact iff the value is 0 or the handles have no width |
| RangeSeekBar.RightRoundTrip | video-trimmer/src/main/java/com/redevrx/video_trimmer/view/RangeSeekBarView.kt:182-202 | a RIGHT percentage gains `(100 - v)(W/P)^2` on the round trip, so the trip is exact iff the value is 100 or the handles have no width |
| RangeSeekBar.Init | video-trimmer/src/main/java/com/redevrx/video_trimmer/view/RangeSeekBarView.kt:38-60 | the selector starts with two thumbs, LEFT selected, the first layout pending, and the handle width taken from the LEFT image |
| RangeSeekBar.Measure | video-trimmer/src/main/java/com/redevrx/video_trimmer/view/RangeSeekBarView.kt:68-91 | the pixel range is the view width minus a handle. The first measure puts the thumbs at 0 % and 100 % at the two ends and fires one create event for the selected thumb; it throws iff no thumb is selected. Later measures move nothing and fire nothing |
| RangeSeekBar.SetThumbValue | video-trimmer/src/main/java/com/redevrx/video_trimmer/view/RangeSeekBarView.kt:212-225 | stores the percentage exactly and puts the thumb at that percentage's pixel; the other thumb and all selector fields are untouched and no event fires |
| RangeSeekBar.SetThumbPos | video-trimmer/src/main/java/com/redevrx/video_trimmer/view/RangeSeekBarView.kt:227-231 | stores the pixel, recomputes the thumb's percentage from it and fires exactly one seek event carrying it; nothing else changes |
| RangeSeekBar.InitMaxWidth | video-trimmer/src/main/java/com/redevrx/video_trimmer/view/RangeSeekBarView.kt:62-66 | the span cap becomes the current distance between the thumbs; stop events follow for LEFT and then RIGHT with their values |
| RangeSeekBar.ClosestThumb | video-trimmer/src/main/java/com/redevrx/video_trimmer/view/RangeSeekBarView.kt:233-244 | -1 iff no thumb's touch zone holds `x`; otherwise a thumb whose zone holds `x`, with no later thumb's zone holding it |
| RangeSeekBar.ClosestOfTwo | video-trimmer/src/main/java/com/redevrx/video_trimmer/view/RangeSeekBarView.kt:233-244 | with two thumbs, RIGHT wins iff its zone holds the touch, and LEFT wins iff only LEFT's zone does |
| RangeSeekBar.CheckPositionThumb | video-trimmer/src/main/java/com/redevrx/video_trimmer/view/RangeSeekBarView.kt:157-169 | the other thumb is pulled to exactly the cap from the dragged one iff the drag widens the selection past the guard; the dragged thumb is never moved here |
| RangeSeekBar.MoveStep | video-trimmer/src/main/java/com/redevrx/video_trimmer/view/RangeSeekBarView.kt:120-152 | a drag keeps the selector well formed and changes only the thumbs |
| RangeSeekBar.MoveKeepsLayout | video-trimmer/src/main/java/com/redevrx/video_trimmer/view/RangeSeekBarView.kt:120-152 | whichever clamp applies, a drag keeps LEFT at or after 0, a handle's width before RIGHT, and RIGHT within the range |
| RangeSeekBar.MoveReportsPositions | video-trimmer/src/main/java/com/redevrx/video_trimmer/view/RangeSeekBarView.kt:120-169 | a drag fires one or two seek events, and each reports its thumb's percentage in the final layout |
| RangeSeekBar.FreeMoveReportsPositions | video-trimmer/src/main/java/com/redevrx/video_trimmer/view/RangeSeekBarView.kt:126-169 | the same for a drag that takes neither clamp, including one where the span rule pulls the other thumb |
| RangeSeekBar.OnTouchEvent | video-trimmer/src/main/java/com/redevrx/video_trimmer/view/RangeSeekBarView.kt:100-155 | throws iff a MOVE arrives with no thumb selected. A DOWN is consumed iff it hits a thumb, and an unconsumed event fires nothing. Other actions change nothing. The layout invariant is kept, and the span cap and pixel range never change |
| RangeSeekBar.DownSelectsClosest | video-trimmer/src/main/java/com/redevrx/video_trimmer/view/RangeSeekBarView.kt:105-112 | DOWN selects the thumb under the finger or -1. A hit anchors that thumb's drag at `x` without moving it and fires one start event; a miss fires nothing |
| RangeSeekBar.UpReportsStop | video-trimmer/src/main/java/com/redevrx/video_trimmer/view/RangeSeekBarView.kt:113-118 | UP changes nothing. It fires one stop event for the selected thumb, and is unconsumed and silent when none is selected |
| RangeSeekBar.MoveLeftCases | video-trimmer/src/main/java/com/redevrx/video_trimmer/view/RangeSeekBarView.kt:126-136 | a LEFT drag is pinned one handle before RIGHT, or pinned to 0, keeping its anchor; otherwise it moves to the candidate and re-anchors. Its value always follows its position and is the last event |
| RangeSeekBar.MoveRightCases | video-trimmer/src/main/java/com/redevrx/video_trimmer/view/RangeSeekBarView.kt:137-147 | the mirror case for RIGHT: pinned one handle after LEFT, or to the end of the range, otherwise moved and re-anchored |
| RangeSeekBar.RightOutwardDragPullsLeft | video-trimmer/src/main/java/com/redevrx/video_trimmer/view/RangeSeekBarView.kt:163-167 | dragging RIGHT past the cap pulls LEFT rightward until the span equals the cap; LEFT's event comes before RIGHT's |
| RangeSeekBar.LeftOutwardDragPullsRight | video-trimmer/src/main/java/com/redevrx/video_trimmer/view/RangeSeekBarView.kt:158-162 | when the leftward guard fires, RIGHT is pulled leftward until the span equals the cap; RIGHT's event comes before LEFT's |
| RangeSeekBar.ShrinkingDragLeavesOtherThumb | video-trimmer/src/main/java/com/redevrx/video_trimmer/view/RangeSeekBarView.kt:157-169 | a free drag that narrows the selection never touches the other thumb and fires a single event |
| RangeSeekBar.AsWrittenLeftwardGuardNeverFires | video-trimmer/src/main/java/com/redevrx/video_trimmer/view/RangeSeekBarView.kt:158-162 | as written, once the span is within the cap a leftward LEFT drag never triggers the rule, and the span grows by the drag distance |
| RangeSeekBar.AsWrittenLeftwardDragExceedsCap | video-trimmer/src/main/java/com/redevrx/video_trimmer/view/RangeSeekBarView.kt:158-162 | a concrete ordered layout with span 100 and cap 100 where a 10-pixel leftward drag leaves span 110 |
| RangeSeekBar.IntendedGuardKeepsSpanCapped | video-trimmer/src/main/java/com/redevrx/video_trimmer/view/RangeSeekBarView.kt:157-169 | with the guard measuring the span after the drag, every free drag of either thumb keeps the span within the cap |
| RangeSeekBar.EdgeClampIgnoresCap | video-trimmer/src/main/java/com/redevrx/video_trimmer/view/RangeSeekBarView.kt:126-136 | pinning LEFT to 0 bypasses the span rule, so even the corrected guard can end with a span above the cap |
| RangeSeekBar.Replay | video-trimmer/src/main/java/com/redevrx/video_trimmer/view/RangeSeekBarView.kt:100-155 | a gesture keeps the selector well formed, and never changes the cap or the pixel range |
| RangeSeekBar.ReplayKeepsLayout | video-trimmer/src/main/java/com/redevrx/video_trimmer/view/RangeSeekBarView.kt:100-155 | over any gesture, under either guard reading, the thumbs never cross and stay inside the range |
| RangeSeekBar.PlacedValuesAreOrdered | video-trimmer/src/main/java/com/redevrx/video_trimmer/view/RangeSeekBarView.kt:212-225 | placing percentages `a <= b` in `[0, 100]` gives an ordered layout, and a later span cap at least a handle wide |
| RangeSeekBar.FirstMeasureIsCoherent | video-trimmer/src/main/java/com/redevrx/video_trimmer/view/RangeSeekBarView.kt:68-91 | after the first measure each thumb sits at its value's pixel. The layout is ordered iff the range is at least one handle wide |
| RangeSeekBar.MeasuredValuesFollow | video-trimmer/src/main/java/com/redevrx/video_trimmer/view/RangeSeekBarView.kt:68-91 | after the first measure each thumb's value is exactly the percentage its pixel stands for |
| RangeSeekBar.PlacedValuesFollow | video-trimmer/src/main/java/com/redevrx/video_trimmer/view/RangeSeekBarView.kt:212-225 | placing both thumbs on percentages in `[0, 100]` leaves each value on its pixel's percentage |
| RangeSeekBar.FollowingValuesAreOrdered | video-trimmer/src/main/java/com/redevrx/video_trimmer/view/RangeSeekBarView.kt:182-202 | on a view wider than two handles, values that follow an ordered layout are ordered: LEFT's never exceeds RIGHT's |
| RangeSeekBar.SettledFollows | video-trimmer/src/main/java/com/redevrx/video_trimmer/view/RangeSeekBarView.kt:182-191 | the value `pixelToScale` gives a thumb of an ordered layout lies on the inner side of its pixel's percentage and inside `[0, 100]` |
| RangeSeekBar.LeftValueFollows | video-trimmer/src/main/java/com/redevrx/video_trimmer/view/RangeSeekBarView.kt:182-191 | LEFT's converted value is at most its pixel's share of `[0, P - W]` |
| RangeSeekBar.RightValueFollows | video-trimmer/src/main/java/com/redevrx/video_trimmer/view/RangeSeekBarView.kt:182-191 | RIGHT's converted value is at least its pixel's share of `[W, P]` |
| RangeSeekBar.MoveSettlesValues | video-trimmer/src/main/java/com/redevrx/video_trimmer/view/RangeSeekBarView.kt:120-169 | a drag reports the dragged thumb last with its converted value. The other thumb either keeps value and pixel with one event, or is pulled, converted and reported first |
| RangeSeekBar.FreeMoveSettlesValues | video-trimmer/src/main/java/com/redevrx/video_trimmer/view/RangeSeekBarView.kt:126-169 | the same for a drag that takes neither clamp |
| RangeSeekBar.MoveKeepsValuesFollowing | video-trimmer/src/main/java/com/redevrx/video_trimmer/view/RangeSeekBarView.kt:120-169 | a drag on a sound layout keeps every value on the inner side of its thumb's pixel |
| RangeSeekBar.Deliver | video-trimmer/src/main/java/com/redevrx/video_trimmer/view/RangeSeekBarView.kt:283-317 | one emission reaches every registered listener once, in registration order |
| RangeSeekBar.FanOut | video-trimmer/src/main/java/com/redevrx/video_trimmer/view/RangeSeekBarView.kt:283-317 | a step's events are delivered event by event, each to all listeners in registration order: delivery `k` brings event `k / n` to listener `k % n` for `n` listeners, and there are listeners × events deliveries |
| RangeSeekBar.ConsDeliveries | video-trimmer/src/main/java/com/redevrx/video_trimmer/view/RangeSeekBarView.kt:283-317 | the first event's row of deliveries followed by the rows of the remaining events is the row-major fan-out of all events |
| RangeSeekBar.RowWithin | video-trimmer/src/main/java/com/redevrx/video_trimmer/view/RangeSeekBarView.kt:283-317 | a delivery index below listeners × events names an existing event row |
| RangeSeekBar.FanOutAppend | video-trimmer/src/main/java/com/redevrx/video_trimmer/view/RangeSeekBarView.kt:283-317 | delivering two steps' events is delivering the first step's, then the second's |
| ProgressBar.New | video-trimmer/src/main/java/com/redevrx/video_trimmer/view/ProgressBarView.kt:21-41 | a new indicator has neither rectangle |
| ProgressBar.Measure | video-trimmer/src/main/java/com/redevrx/video_trimmer/view/ProgressBarView.kt:48-58 | measuring changes only the stored view width |
| ProgressBar.UpdateProgress | video-trimmer/src/main/java/com/redevrx/video_trimmer/view/ProgressBarView.kt:106-116 | without a background nothing changes. Scale 0 gives a zero-width bar at x = 0. A scale in `(0, 100]` ends the bar at the floor of that share of the width, inside the view. The bar always has the background's height band |
| ProgressBar.PercentOfWidth | video-trimmer/src/main/java/com/redevrx/video_trimmer/view/ProgressBarView.kt:111 | `width * percent / 100` in `Long` arithmetic is the floor of the exact share and lies in `[0, width]` |
| ProgressBar.UpdateBackgroundRect | video-trimmer/src/main/java/com/redevrx/video_trimmer/view/ProgressBarView.kt:95-104 | the background is created once as the full bar. Index 0 moves only its left edge, and any other index only its right edge, to the value's share of the width. The progress then resets to zero width |
| ProgressBar.BackgroundEdgeWithinView | video-trimmer/src/main/java/com/redevrx/video_trimmer/view/ProgressBarView.kt:95-104 | for a percentage in `[0, 100]` the moved edge stays inside the view |
| ProgressBar.OnRangeEvent | video-trimmer/src/main/java/com/redevrx/video_trimmer/view/ProgressBarView.kt:79-93 | create, seek, start and stop all perform the same update, so after any of them the progress is a zero-width bar at x = 0 |
| TimeLine.NumThumbs | video-trimmer/src/main/java/com/redevrx/video_trimmer/view/TimeLineView.kt:68-69 | at least 10 frames. For a positive frame width it is the fewest that cover the view, unless that is below 10. A zero frame width gives `Int.MAX_VALUE` (wide view) or 10 |
| TimeLine.CeilCovers | video-trimmer/src/main/java/com/redevrx/video_trimmer/view/TimeLineView.kt:68 | the ceiling of `v / f` frames covers `v`, and one frame fewer does not |
| TimeLine.CropWidth | video-trimmer/src/main/java/com/redevrx/video_trimmer/view/TimeLineView.kt:70 | ten crops of this width fit in the view with less than ten pixels to spare, whatever the frame count |
| TimeLine.VideoLengthAsWritten | video-trimmer/src/main/java/com/redevrx/video_trimmer/view/TimeLineView.kt:58-60 | the length is a 32-bit value; it is exact only while the product fits in `Int` |
| TimeLine.VideoLength | video-trimmer/src/main/java/com/redevrx/video_trimmer/view/TimeLineView.kt:58-60 | the corrected length is positive for a positive duration and agrees with the code wherever the code does not overflow |
| TimeLine.VideoLengthWrapsForLongVideos | video-trimmer/src/main/java/com/redevrx/video_trimmer/view/TimeLineView.kt:58-60 | a duration of 2147484 ms gives a negative length as written |
| TimeLine.Interval | video-trimmer/src/main/java/com/redevrx/video_trimmer/view/TimeLineView.kt:71 | for a non-negative length, the interval is non-negative and the frames' intervals fit inside the length |
| TimeLine.SampleTimesNondecreasing | video-trimmer/src/main/java/com/redevrx/video_trimmer/view/TimeLineView.kt:71-76 | for a non-negative video length, frame times never decrease along the strip |
| TimeLine.SampleTimesWithinVideo | video-trimmer/src/main/java/com/redevrx/video_trimmer/view/TimeLineView.kt:71-76 | every frame time of a non-empty video lies in `[0, length)` |
| TimeLine.CorrectedSamplesWithinVideo | video-trimmer/src/main/java/com/redevrx/video_trimmer/view/TimeLineView.kt:58-76 | with the length computed in `Long`, every requested frame time lies inside the video, for any view and frame width |
| TimeLine.AsWrittenSampleTimeNegative | video-trimmer/src/main/java/com/redevrx/video_trimmer/view/TimeLineView.kt:58-76 | as written, a 2147484 ms video on a 1080-pixel strip requests its second frame at a negative time |
| TimeLine.ExtractFrames | video-trimmer/src/main/java/com/redevrx/video_trimmer/view/TimeLineView.kt:72-86 | frame `i` is stored iff `0 <= i < numThumbs` and the retriever returned a frame at `i * interval`, and it is that frame |
| TimeLine.DrawPlan | video-trimmer/src/main/java/com/redevrx/video_trimmer/view/TimeLineView.kt:105-118 | only stored keys below the stored count are drawn, in increasing order, each starting where the previous one ended |
| TimeLine.OnDraw | video-trimmer/src/main/java/com/redevrx/video_trimmer/view/TimeLineView.kt:105-118 | draws nothing before the first extraction, and otherwise exactly the draw plan from x = 0 |
| TimeLine.DrawPlanDrawsPresentKeys | video-trimmer/src/main/java/com/redevrx/video_trimmer/view/TimeLineView.kt:105-118 | the keys drawn are exactly the stored keys below the stored count |
| TimeLine.HoleHidesAStoredFrame | video-trimmer/src/main/java/com/redevrx/video_trimmer/view/TimeLineView.kt:72-118 | one missing frame below the count hides a stored frame that is never drawn |
| TimeLine.OnSizeChanged | video-trimmer/src/main/java/com/redevrx/video_trimmer/view/TimeLineView.kt:45-48 | only a change of width re-extracts, and the new frames replace the old wholesale |
| TimeLabel.Split | video-trimmer/src/main/java/com/redevrx/video_trimmer/view/VideoEditor.kt:404 | one part more than there are separators, no part contains the separator, and joining the parts gives back the text |
| TimeLabel.FirstWord | video-trimmer/src/main/java/com/redevrx/video_trimmer/view/VideoEditor.kt:410 | the longest prefix without a space, cut at the first space |
| TimeLabel.Trim | video-trimmer/src/main/java/com/redevrx/video_trimmer/view/VideoEditor.kt:410 | the slice that remains once leading and trailing whitespace are dropped; it neither starts nor ends with whitespace |
| TimeLabel.ParseInt | video-trimmer/src/main/java/com/redevrx/video_trimmer/view/VideoEditor.kt:409-410 | succeeds iff the text is an optionally signed run of digits whose value fits in `Int`, and returns that value; otherwise a NumberFormatException |
| TimeLabel.ParseDecimal | video-trimmer/src/main/java/com/redevrx/video_trimmer/view/VideoEditor.kt:409-410 | every non-negative `Int` reads back from its decimal text |
| TimeLabel.TimeToMilliseconds | video-trimmer/src/main/java/com/redevrx/video_trimmer/view/VideoEditor.kt:403-414 | IllegalArgumentException iff the text does not have exactly one colon. Any other failure is a NumberFormatException, and a result is a 32-bit value |
| TimeLabel.ReadClock | video-trimmer/src/main/java/com/redevrx/video_trimmer/view/VideoEditor.kt:409-413 | reading the two fields fails only with a NumberFormatException, and a result is a 32-bit value |
| TimeLabel.Scan | video-trimmer/src/main/java/com/redevrx/video_trimmer/view/VideoEditor.kt:354-358 | every reported start is a `\d{2}:\d{2}` match, and reported matches do not overlap and increase |
| TimeLabel.ScanFindsEveryMatch | video-trimmer/src/main/java/com/redevrx/video_trimmer/view/VideoEditor.kt:354-358 | no match is missed: each one overlaps a reported match |
| TimeLabel.NoMatchInGaps | video-trimmer/src/main/java/com/redevrx/video_trimmer/view/VideoEditor.kt:354-358 | no match starts between two consecutive reported matches |
| TimeLabel.FindAll | video-trimmer/src/main/java/com/redevrx/video_trimmer/view/VideoEditor.kt:354-358 | one five-character `MM:SS` text per reported match |
| TimeLabel.MatchedTimeConverts | video-trimmer/src/main/java/com/redevrx/video_trimmer/view/VideoEditor.kt:403-414 | a matched fragment always converts, to the clock it reads, without overflow |
| TimeLabel.ClockRoundTrip | video-trimmer/src/main/java/com/redevrx/video_trimmer/view/VideoEditor.kt:403-414 | a zero-padded `MM:SS` converts back to `(MM * 60 + SS) * 1000` |
| TimeLabel.FirstTwoMatches | video-trimmer/src/main/java/com/redevrx/video_trimmer/view/VideoEditor.kt:354-358 | two clocks separated by text without digits are the first two matches found |
| TimeLabel.SaveRange | video-trimmer/src/main/java/com/redevrx/video_trimmer/view/VideoEditor.kt:353-383 | the clip bounds are the clocks of the first two matches. Fewer than two matches is an IndexOutOfBoundsException, and no other failure occurs |
| TimeLabel.LabelRange | video-trimmer/src/main/java/com/redevrx/video_trimmer/view/VideoEditor.kt:353-383 | a label holding two `MM:SS` clocks separated by text without digits yields those clocks as the clip bounds, whatever follows; whether `stringForTime` writes such a label is outside this model |
| TimeLabel.LabelExample | video-trimmer/src/main/java/com/redevrx/video_trimmer/view/VideoEditor.kt:353-383 | "00:05 sec - 00:15 sec" gives the clip from 5000 ms to 15000 ms |
| VideoEditor.Halt | video-trimmer/src/main/java/com/redevrx/video_trimmer/view/VideoEditor.kt:307-311 | the player pauses where it is and the play icon shows; nothing else changes |
| VideoEditor.SecondsToMillis | video-trimmer/src/main/java/com/redevrx/video_trimmer/view/VideoEditor.kt:436-444 | the 32-bit product agrees with `seconds * 1000` modulo 2^32 and exactly when it fits, and is never the -1 sentinel |
| VideoEditor.SetMaxDuration | video-trimmer/src/main/java/com/redevrx/video_trimmer/view/VideoEditor.kt:436-439 | once set, the maximum is active (never -1). It is the milliseconds when they fit in `Int` and their 32-bit wrap otherwise, and nothing else changes |
| VideoEditor.SetMinDuration | video-trimmer/src/main/java/com/redevrx/video_trimmer/view/VideoEditor.kt:441-444 | the same for the minimum |
| VideoEditor.InitialWindow | video-trimmer/src/main/java/com/redevrx/video_trimmer/view/VideoEditor.kt:254-273 | throws ArithmeticException iff the duration is 0 in a bounded branch. Without a bound that applies, the window is the whole video with thumbs unplaced. Otherwise it is centred on half the duration, its length is the bound rounded down to even, and the thumb percentages are the ends times 100 over the duration, rounded toward zero |
| VideoEditor.MaxWindowWithinVideo | video-trimmer/src/main/java/com/redevrx/video_trimmer/view/VideoEditor.kt:256-261 | a reachable non-negative maximum gives a window inside the video, one millisecond short of the maximum at most, with ordered percentages in `[0, 100]` |
| VideoEditor.InitialWindowExamples | video-trimmer/src/main/java/com/redevrx/video_trimmer/view/VideoEditor.kt:254-273 | a 10 s video with a 4 s maximum selects 3 s to 7 s at 30 % and 70 %. A 90 s video with 60 s and 0 s bounds selects 15 s to 75 s at 16 % and 83 %. With no bounds the whole video is selected |
| VideoEditor.MinWindowCanStartBeforeVideo | video-trimmer/src/main/java/com/redevrx/video_trimmer/view/VideoEditor.kt:263-268 | the minimum branch starts before the video iff half the minimum exceeds half the duration. A 4 s video with a 6 s minimum gives -1 s to 5 s at -25 % and 125 % |
| VideoEditor.NegativePercentLeavesRange | video-trimmer/src/main/java/com/redevrx/video_trimmer/view/VideoEditor.kt:263-268 | placing LEFT at a negative percentage puts it before the pixel range and breaks the layout invariant |
| VideoEditor.ThumbTimeMonotone | video-trimmer/src/main/java/com/redevrx/video_trimmer/view/VideoEditor.kt:295-300 | a larger percentage of a non-negative duration never stands for an earlier time |
| VideoEditor.OnSeekThumbs | video-trimmer/src/main/java/com/redevrx/video_trimmer/view/VideoEditor.kt:292-305 | LEFT moves the start to the truncated percentage of the duration and seeks the player there. RIGHT moves the end there, and any other index moves neither. The selected length is always end minus start, and playback state and the other fields are kept |
| VideoEditor.SeekPercentWithinVideo | video-trimmer/src/main/java/com/redevrx/video_trimmer/view/VideoEditor.kt:295-300 | a percentage in `[0, 100]` of a non-negative duration truncates to a time inside the video |
| VideoEditor.OnRangeEvent | video-trimmer/src/main/java/com/redevrx/video_trimmer/view/VideoEditor.kt:145-163 | create and start events are ignored, and a stop halts playback. A seek hides the scrubber and moves a bound, and only seeks change the selection |
| VideoEditor.Feed | video-trimmer/src/main/java/com/redevrx/video_trimmer/view/VideoEditor.kt:145-163 | hearing a step's events never changes the duration |
| VideoEditor.FeedKeepsInVideo | video-trimmer/src/main/java/com/redevrx/video_trimmer/view/VideoEditor.kt:292-305 | events whose seeks carry percentages keep both ends of the selection inside the video |
| VideoEditor.SetProgressBarPosition | video-trimmer/src/main/java/com/redevrx/video_trimmer/view/VideoEditor.kt:191-193 | for a positive duration, a position inside the video shows as its per-mille in `[0, 1000]`, rounded down. Nothing changes otherwise, and only the scrubber changes |
| VideoEditor.PerMilleWithin | video-trimmer/src/main/java/com/redevrx/video_trimmer/view/VideoEditor.kt:192 | a position inside a video of positive duration is between 0 and 1000 per mille |
| VideoEditor.UpdateVideoProgress | video-trimmer/src/main/java/com/redevrx/video_trimmer/view/VideoEditor.kt:329-341 | the scrubber is visible iff the time is past the start or the end. At or past the end playback halts and a rewind is requested. Before the end the scrubber follows the time |
| VideoEditor.NotifyProgressUpdate | video-trimmer/src/main/java/com/redevrx/video_trimmer/view/VideoEditor.kt:313-327 | a no-op for duration 0. Otherwise a rewind is requested iff one was, or the position reached the end, and playback continues iff it was playing before the end. The position and selection are kept |
| VideoEditor.OnClickVideoPlayPause | video-trimmer/src/main/java/com/redevrx/video_trimmer/view/VideoEditor.kt:203-218 | playing pauses and shows the icon. Paused plays and hides the icon, seeking to the start first iff a rewind was requested, and the request is cleared |
| VideoEditor.PlayAfterEndRestartsAtStart | video-trimmer/src/main/java/com/redevrx/video_trimmer/view/VideoEditor.kt:203-218 | playback that reached the end stops at the next poll, and the next tap replays the selection from its start |
| VideoEditor.PauseThenPlayResumes | video-trimmer/src/main/java/com/redevrx/video_trimmer/view/VideoEditor.kt:203-218 | pausing before the end and tapping again resumes at the same position |
| VideoEditor.ScrubTimeWithin | video-trimmer/src/main/java/com/redevrx/video_trimmer/view/VideoEditor.kt:167 | a scrubber progress in `[0, 1000]` stands for a time inside the video |
| VideoEditor.OnPlayerIndicatorSeekChanged | video-trimmer/src/main/java/com/redevrx/video_trimmer/view/VideoEditor.kt:166-172 | only a user drag outside the selection changes anything. Before the start it snaps the scrubber to the start, and after the end to the end |
| VideoEditor.ScrubSnapsToSelection | video-trimmer/src/main/java/com/redevrx/video_trimmer/view/VideoEditor.kt:166-172 | a user drag outside a selection inside the video leaves the scrubber on the per-mille step holding the nearer bound |
| VideoEditor.OnPlayerIndicatorSeekStart | video-trimmer/src/main/java/com/redevrx/video_trimmer/view/VideoEditor.kt:174-179 | playback halts where it is, and a rewind is requested iff one was or the position is at the end |
| VideoEditor.OnPlayerIndicatorSeekStop | video-trimmer/src/main/java/com/redevrx/video_trimmer/view/VideoEditor.kt:181-189 | playback halts at the scrubber's time narrowed to `Int`, which lies inside the video for a progress in `[0, 1000]` |
| VideoEditor.SetSeekBarPosition | video-trimmer/src/main/java/com/redevrx/video_trimmer/view/VideoEditor.kt:254-278 | fails exactly as the window does. Otherwise the selected length is the duration, the paused player stands at the start, the thumbs are placed on the window's percentages and the span cap is their distance. As written the selection is the window's bounds; read by the thumbs it is the times of the placed thumbs' values |
| VideoEditor.StopEventsHalt | video-trimmer/src/main/java/com/redevrx/video_trimmer/view/VideoEditor.kt:307-311 | any non-empty run of stop events has the effect of one halt |
| VideoEditor.OnVideoPrepared | video-trimmer/src/main/java/com/redevrx/video_trimmer/view/VideoEditor.kt:224-252 | the first call records the player's duration, shows the icon and sets the initial window, under either reading of the bounds; once prepared, calls change nothing |
| VideoEditor.PreparedOnlyOnce | video-trimmer/src/main/java/com/redevrx/video_trimmer/view/VideoEditor.kt:224-228 | a second preparation is a no-op whatever duration it reports |
| VideoEditor.Handle | video-trimmer/src/main/java/com/redevrx/video_trimmer/view/VideoEditor.kt:108-164 | only a MOVE with no thumb selected throws. The duration and handle width never change, and inputs other than touches on the selector change neither the selector nor the selection |
| VideoEditor.Advance | video-trimmer/src/main/java/com/redevrx/video_trimmer/view/VideoEditor.kt:313-315 | a poll finds a playing player at the reported position and a paused one where it was; nothing but the position changes |
| VideoEditor.Session | video-trimmer/src/main/java/com/redevrx/video_trimmer/view/VideoEditor.kt:108-164 | a run of inputs keeps the selector well formed on the same pixel range and handle width |
| VideoEditor.PlaybackStopsAtEnd | video-trimmer/src/main/java/com/redevrx/video_trimmer/view/VideoEditor.kt:313-341 | after play and a poll at `position`, playback continues iff `position` is before the end; at or past the end it halts, shows the icon and requests a rewind, and the next tap plays from the start |
| VideoEditor.TouchSeeksArePercentages | video-trimmer/src/main/java/com/redevrx/video_trimmer/view/VideoEditor.kt:145-163 | every seek a touch fires on an ordered selector carries a percentage in `[0, 100]` |
| VideoEditor.HandleKeepsSound | video-trimmer/src/main/java/com/redevrx/video_trimmer/view/VideoEditor.kt:108-164 | every input keeps the trimmer invariant: thumbs ordered inside the range and selection inside the video |
| VideoEditor.SessionKeepsSound | video-trimmer/src/main/java/com/redevrx/video_trimmer/view/VideoEditor.kt:108-164 | any run of drags, taps, polls and scrubs keeps the trimmer invariant |
| VideoEditor.PrepareEstablishesSound | video-trimmer/src/main/java/com/redevrx/video_trimmer/view/VideoEditor.kt:224-278 | preparing a video on a laid-out selector establishes the invariant when a reachable non-negative maximum or no bound applies, under either reading of the bounds |
| VideoEditor.AlignedSelectionIsOrdered | video-trimmer/src/main/java/com/redevrx/video_trimmer/view/VideoEditor.kt:292-305 | on a view wider than two handles, a sound selection that brackets its thumbs' times has its start no later than its end |
| VideoEditor.FeedMoveAligns | video-trimmer/src/main/java/com/redevrx/video_trimmer/view/VideoEditor.kt:145-163 | the seeks of one drag, heard by the editor, keep the selection bracketing the thumbs' times |
| VideoEditor.OneSeekAligns | video-trimmer/src/main/java/com/redevrx/video_trimmer/view/VideoEditor.kt:292-305 | one seek moves its bound onto its thumb's time, and the unchanged thumb stays inside the other bound |
| VideoEditor.TwoSeeksAlign | video-trimmer/src/main/java/com/redevrx/video_trimmer/view/VideoEditor.kt:292-305 | seeks for both thumbs move both bounds onto the thumbs' times |
| VideoEditor.HandleKeepsAligned | video-trimmer/src/main/java/com/redevrx/video_trimmer/view/VideoEditor.kt:108-164 | every input keeps a sound trimmer sound and its selection bracketing the thumbs |
| VideoEditor.SessionKeepsSelectionOrdered | video-trimmer/src/main/java/com/redevrx/video_trimmer/view/VideoEditor.kt:108-164 | on a view wider than two handles, any run of inputs keeps the trimmer sound, its selection bracketing the thumbs, and its start no later than its end |
| VideoEditor.PrepareAligns | video-trimmer/src/main/java/com/redevrx/video_trimmer/view/VideoEditor.kt:224-278 | with the bounds read back from the placed thumbs, preparing a video establishes the invariant, the bracketing and an ordered selection |
| VideoEditor.SampleSession | video-trimmer/src/main/java/com/redevrx/video_trimmer/view/VideoEditor.kt:254-305 | a 90 s video with a 60 s maximum on a 1030-pixel view puts the thumbs at 16 % and 83 %, and dragging RIGHT onto LEFT sets the end to 14468 ms and leaves the start |
| VideoEditor.SampleGrab | video-trimmer/src/main/java/com/redevrx/video_trimmer/view/RangeSeekBarView.kt:105-112 | in that sample, a DOWN at 836.1 px selects RIGHT and anchors its drag there, and the editor ignores the start event |
| VideoEditor.SampleRelease | video-trimmer/src/main/java/com/redevrx/video_trimmer/view/RangeSeekBarView.kt:137-147 | dragging the grabbed RIGHT to 0 pins it one handle after LEFT, at 16.0756 %, so the end becomes 14468 ms and the start stays |
| VideoEditor.WindowBoundsInvertSelection | video-trimmer/src/main/java/com/redevrx/video_trimmer/view/VideoEditor.kt:254-305 | as written, that session selects 15000 to 75000 ms and then ends at 14468 ms, before its start, while the trimmer stays sound |
| VideoEditor.ThumbBoundsKeepSampleOrdered | video-trimmer/src/main/java/com/redevrx/video_trimmer/view/VideoEditor.kt:254-305 | with bounds read from the thumbs, the same session selects 14400 to 74700 ms and then 14400 to 14468 ms |
| VideoEditor.ResetOnlyAtEnd | video-trimmer/src/main/java/com/redevrx/video_trimmer/view/VideoEditor.kt:313-341 | a rewind request is raised only by a poll or a scrub, with playback halted at or past the end |
| VideoEditor.FeedKeepsReset | video-trimmer/src/main/java/com/redevrx/video_trimmer/view/VideoEditor.kt:145-163 | the selector's events never touch the rewind request |
| VideoEditor.PlayConsumesReset | video-trimmer/src/main/java/com/redevrx/video_trimmer/view/VideoEditor.kt:203-218 | after a tap a rewind request remains iff the tap paused a playing video that had one |

## Left out

- Rendering: `onDraw` of the selector and the progress indicator, shadows, paints, `invalidate`, margins, and the layout visibilities of the inflated views. The strip's drawing is modelled only as the sequence of bitmap positions.
- Measuring beyond the stored width: `resolveSizeAndState` and the height computations are Android layout code, and only the resulting width is an input here.
- `MediaMetadataRetriever`, `ExoPlayer` and `Transformer`: frame retrieval is the function parameter `frameAt`. The player is reduced to playing or paused and a position, and the export is left out because it is I/O. Scaling and cropping the frames is bitmap processing and is not modelled.
- Background threads: extraction runs on an executor and is delivered on the UI thread. `OnSizeChanged` models the delivery as immediate, and an exception inside the background job is forwarded to the thread's default uncaught-exception handler, and dropped only if none is set. This is not modelled.
- `MessageHandler`: the 10 ms polling loop is timing. It is modelled as the `Tick` input, one poll each, carrying the position the player reports. The loop re-arms with message code 0 while the removals target code 2, so a pause cannot cancel a pending poll. That race is a concurrency matter and is not modelled.
- `onVideoPrepared`'s aspect-ratio fitting of the video surface, `setVideoURI`, `onResume`/`onPause`, `onCancelClicked`, `destroy`, the colour, bitrate and typeface setters, and the gesture detector's toast.
- `setTimeFrames` and `TrimVideoUtils.stringForTime`: `TrimVideoUtils.kt` is not part of this model. The label is taken as text of the shape the label lemmas assume.
- `getUnstuckFrom` and `getThumbValue`: never called.
- Android's `SeekBar` clamps a set progress to `[0, max]`. The scrubber value is stored unclamped, because the widget is not part of this model.
- `position.toFloat()` in the progress listener rounds `Long` positions above 2^24 ms; the model passes the exact position.
- `Float` arithmetic is exact `real` arithmetic: no rounding, no NaN or infinity. `RangeSeekBar.PixelToScale` therefore requires a non-zero pixel range, where the code would divide by zero in `Float` and produce NaN or infinity.
- `Long` overflow of `duration * value`, `1000L * position` and `duration * progress` is not modelled, because times stay far below 2^63.
- `Char.isWhitespace` and `toInt` beyond ASCII: non-ASCII whitespace and digits are not modelled.
- `Thumb.drawableToBitmap`: image conversion, never used by the core.
- `VideoEditor.Feed`: states only that the duration is kept; its effect on the selection is stated by `VideoEditor.FeedKeepsInVideo` and `VideoEditor.StopEventsHalt`, because each event's effect is `VideoEditor.OnRangeEvent`'s.
- Re-measuring during a session: `VideoEditor.Input` has no measure input, so `VideoEditor.SessionKeepsSound` and `VideoEditor.SessionKeepsSelectionOrdered` hold for a selector laid out once. A later `onMeasure` with a new width resets the pixel range and moves no thumb (`RangeSeekBar.Measure`). A narrower view then leaves RIGHT past the range, and a wider one leaves the values off their pixels.
- `VideoEditor.Session`: states only that the selector stays well formed; the trimmer invariant across a session is `VideoEditor.SessionKeepsSound`.
- `RangeSeekBar.Replay`: states only well-formedness and the unchanged cap and range; the layout across a gesture is `RangeSeekBar.ReplayKeepsLayout`.
- `VideoEditor.Sound`: does not include an ordered selection. As written the order can break (see Findings), so the ordering lemmas use `VideoEditor.Aligned` and read the bounds from the thumbs. They also need the view to be wider than two handles, and they prove `start <= end`, not a strict `start < end`, because touching handles can stand for the same time.
- `TimeLabel.ReadClock`: states the failure kind and the 32-bit range only; the value for two-digit fields is `TimeLabel.MatchedTimeConverts`.

## Findings

| source | as written | input that shows it | evidently intended | confidence | as-written member | corrected member |
|---|---|---|---|---|---|---|
| video-trimmer/src/main/java/com/redevrx/video_trimmer/view/RangeSeekBarView.kt:159 | a leftward drag of LEFT tests `right.pos + dx - left.pos > maxWidth`, the span moved the wrong way, so once the span is within the cap the guard never fires | thumbs at 100 and 200 with cap 100, handle 10, range 500; a touch moving 10 pixels left drags LEFT from 100 to 90 and leaves span 110 | test the span after the drag, `right.pos - (left.pos + dx) > maxWidth`, and pull RIGHT to the cap | not executed | RangeSeekBar.AsWrittenLeftwardDragExceedsCap | RangeSeekBar.IntendedGuardKeepsSpanCapped |
| video-trimmer/src/main/java/com/redevrx/video_trimmer/view/TimeLineView.kt:58-60 | the duration is multiplied by 1000 in `Int` before `toLong()`, so the length wraps for videos of 2147484 ms (under 36 minutes) or more | duration 2147484 ms on a 1080-pixel view with 120-pixel frames: the length is -2147483296 and frame 1 is requested at a negative time | compute the product in `Long` | not executed | TimeLine.AsWrittenSampleTimeNegative | TimeLine.CorrectedSamplesWithinVideo |
| video-trimmer/src/main/java/com/redevrx/video_trimmer/view/VideoEditor.kt:254-278 | `setSeekBarPosition` keeps the window's millisecond bounds, but the thumbs stand on its percentages truncated to whole numbers; a later seek sets one bound from a thumb, so the selection can invert | a 90 s video with 60 s and 0 s bounds on a 1030-pixel view with 30-pixel handles selects 15000 to 75000 ms at 16 % and 83 %; grabbing RIGHT at 836.1 and dragging to 0 sets the end to 14468 ms, before the 15000 ms start | record the bounds the placed thumbs stand for, so the selection brackets the thumbs and stays ordered | not executed | VideoEditor.WindowBoundsInvertSelection | VideoEditor.SessionKeepsSelectionOrdered |
