/**
 The fixed analysis window `processFrame` cuts out of every camera frame:
 `submat(rows/2 - 20, rows/2 + 20, cols/2 - 60, cols/2 + 60)`, half-open in
 both directions, with Java's integer division (frame sizes are never
 negative, so it agrees with Dafny's). OpenCV's `submat` refuses a range that
 leaves the frame, which the source does not guard against.
 */
module Crop {
  import opened Wrappers

  const HalfHeight: int := 20
  const HalfWidth: int := 60

  /** Row range `[rowStart, rowEnd)` and column range `[colStart, colEnd)`. */
  datatype Window = Window(rowStart: int, rowEnd: int, colStart: int, colEnd: int)

  /** The error OpenCV raises for a sub-matrix range outside the frame. */
  datatype CropError = OutOfBounds

  /** The window of line 49 for a frame of `rows` by `cols` pixels. */
  function CropWindow(rows: nat, cols: nat): (w: Window)
    ensures w.rowEnd - w.rowStart == 40 && w.colEnd - w.colStart == 120
    ensures w.rowStart + HalfHeight == rows / 2 == w.rowEnd - HalfHeight
    ensures w.colStart + HalfWidth == cols / 2 == w.colEnd - HalfWidth
  {
    Window(rows / 2 - HalfHeight, rows / 2 + HalfHeight, cols / 2 - HalfWidth, cols / 2 + HalfWidth)
  }

  /** OpenCV's admissibility test for `submat`: each range lies within the frame. */
  predicate Fits(w: Window, rows: nat, cols: nat) {
    0 <= w.rowStart <= w.rowEnd <= rows && 0 <= w.colStart <= w.colEnd <= cols
  }

  /** Whether pixel (r, c) of the frame lies in the window. */
  predicate Covers(w: Window, r: int, c: int) {
    w.rowStart <= r < w.rowEnd && w.colStart <= c < w.colEnd
  }

  /** `imageMat.submat(...)` of line 49: the window, or the error OpenCV raises. */
  function Submat(rows: nat, cols: nat): (r: Result<Window, CropError>)
    ensures r.Success? <==> rows / 2 >= HalfHeight && cols / 2 >= HalfWidth
    ensures r.Success? ==> r.value == CropWindow(rows, cols) && Fits(r.value, rows, cols)
  {
    var w := CropWindow(rows, cols);
    CropFitsIff(rows, cols);
    if Fits(w, rows, cols) then Success(w) else Failure(OutOfBounds)
  }

  /** The window lies inside the frame exactly when both half sizes reach the window's. */
  lemma CropFitsIff(rows: nat, cols: nat)
    ensures Fits(CropWindow(rows, cols), rows, cols) <==> rows / 2 >= HalfHeight && cols / 2 >= HalfWidth
  {
    assert rows / 2 + rows / 2 <= rows;
    assert cols / 2 + cols / 2 <= cols;
  }

  /** The window covers exactly the 40 rows and 120 columns around the frame's centre. */
  lemma CoversCentre(rows: nat, cols: nat, r: int, c: int)
    ensures Covers(CropWindow(rows, cols), r, c) <==>
      rows / 2 - 20 <= r < rows / 2 + 20 && cols / 2 - 60 <= c < cols / 2 + 60
  {
  }
}
