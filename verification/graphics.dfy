/** The two Android graphics values the widget's arithmetic touches. */
module Graphics {

  /** Only the dimensions of a decoded image matter to the model. */
  datatype Bitmap = Bitmap(width: nat, height: nat)

  /** `android.graphics.Rect`: integer edges. */
  datatype Rect = Rect(left: int, top: int, right: int, bottom: int)
}
