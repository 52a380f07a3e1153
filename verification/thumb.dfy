/**
 * The two handles of the range selector (Thumb.kt). A thumb carries its
 * index, a percentage `value`, a pixel `pos`, its handle image and the x of
 * the last touch that moved it.
 */
module Thumbs {
  import opened Outcomes
  import opened Graphics

  const Left: int := 0
  const Right: int := 1

  /**
   * `index` has a private setter and is written once, in `InitThumbs`; the
   * image's width and height are not stored but derived from `bitmap`, so
   * they can only change when the image does.
   */
  datatype Thumb = Thumb(index: int, value: real, pos: real, bitmap: Option<Bitmap>, lastTouchX: real)

  /** Width of the handle image, 0 when there is none. */
  function WidthBitmap(t: Thumb): (w: nat)
    ensures t.bitmap.None? ==> w == 0
    ensures t.bitmap.Some? ==> w == t.bitmap.value.width
  {
    match t.bitmap
    case Some(b) => b.width
    case None => 0
  }

  /** Height of the handle image, 0 when there is none. */
  function HeightBitmap(t: Thumb): (h: nat)
    ensures t.bitmap.None? ==> h == 0
    ensures t.bitmap.Some? ==> h == t.bitmap.value.height
  {
    match t.bitmap
    case Some(b) => b.height
    case None => 0
  }

  /** The bitmap setter: replaces the image and with it both dimensions, nothing else. */
  function WithBitmap(t: Thumb, b: Option<Bitmap>): (r: Thumb)
    ensures r.index == t.index && r.value == t.value && r.pos == t.pos && r.lastTouchX == t.lastTouchX
    ensures WidthBitmap(r) == (if b.Some? then b.value.width else 0)
    ensures HeightBitmap(r) == (if b.Some? then b.value.height else 0)
  {
    t.(bitmap := b)
  }

  /** A thumb just built by the private constructor and given its index. */
  function NewThumb(index: int): (t: Thumb)
    ensures t.index == index && t.value == 0.0 && t.pos == 0.0
    ensures WidthBitmap(t) == 0 && HeightBitmap(t) == 0
  {
    Thumb(index, 0.0, 0.0, None, 0.0)
  }

  /**
   * `initThumbs`: exactly two thumbs, LEFT then RIGHT, each holding its
   * decoded handle image (decoding may yield no image).
   */
  function InitThumbs(leftHandle: Option<Bitmap>, rightHandle: Option<Bitmap>): (ts: seq<Thumb>)
    ensures |ts| == 2
    ensures forall i :: 0 <= i < |ts| ==> ts[i].index == i && ts[i].value == 0.0 && ts[i].pos == 0.0 && ts[i].lastTouchX == 0.0
    ensures ts[Left].bitmap == leftHandle && ts[Right].bitmap == rightHandle
  {
    [WithBitmap(NewThumb(Left), leftHandle), WithBitmap(NewThumb(Right), rightHandle)]
  }

  /** `getWidthBitmap`: the width of the first thumb's image, 0 without one; the list must not be empty. */
  function GetWidthBitmap(ts: seq<Thumb>): (w: nat)
    requires |ts| > 0
    ensures ts[0].bitmap.None? ==> w == 0
    ensures ts[0].bitmap.Some? ==> w == ts[0].bitmap.value.width
  {
    WidthBitmap(ts[0])
  }

  /** `getHeightBitmap`: the height of the first thumb's image, 0 without one. */
  function GetHeightBitmap(ts: seq<Thumb>): (h: nat)
    requires |ts| > 0
    ensures ts[0].bitmap.None? ==> h == 0
    ensures ts[0].bitmap.Some? ==> h == ts[0].bitmap.value.height
  {
    HeightBitmap(ts[0])
  }

  /** The selector's handle size comes from the LEFT image alone: the RIGHT image never affects it. */
  lemma HandleSizeIgnoresRightImage(leftHandle: Option<Bitmap>, right1: Option<Bitmap>, right2: Option<Bitmap>)
    ensures GetWidthBitmap(InitThumbs(leftHandle, right1)) == GetWidthBitmap(InitThumbs(leftHandle, right2))
    ensures GetHeightBitmap(InitThumbs(leftHandle, right1)) == GetHeightBitmap(InitThumbs(leftHandle, right2))
    ensures GetWidthBitmap(InitThumbs(leftHandle, right1)) == (if leftHandle.Some? then leftHandle.value.width else 0)
  {
  }
}
