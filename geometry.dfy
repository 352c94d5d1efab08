/**
 * Face rectangles and the placement of a face's label text (`getbox` and the
 * text-position part of `mark_face` in utils.py). The text metrics and the image
 * size come from OpenCV in the source; here they are plain integer inputs.
 */
module Geometry {
  import opened Wrappers

  /** A face rectangle as the face service returns it. */
  datatype Rect = Rect(left: int, top: int, width: int, height: int)

  /** A face box as `(top, right, bottom, left)`. */
  datatype Box = Box(top: int, right: int, bottom: int, left: int)

  /** What `cv.getTextSize` reports for the label text. */
  datatype TextMetrics = TextMetrics(width: int, height: int, baseline: int)

  datatype Point = Point(x: int, y: int)

  /** `getbox`: corners of the rectangle; the box keeps the rectangle's origin and extent. */
  function GetBox(r: Rect): (b: Box)
    ensures b.left == r.left && b.top == r.top
    ensures b.right - b.left == r.width && b.bottom - b.top == r.height
    ensures r.width >= 0 && r.height >= 0 ==> b.left <= b.right && b.top <= b.bottom
  {
    Box(r.top, r.left + r.width, r.top + r.height, r.left)
  }

  /**
   * `int(a / 2)` in Python: true division, then truncation toward zero
   * (Dafny's `/` on `int` rounds toward negative infinity instead).
   */
  function TruncHalf(a: int): (q: int)
    ensures a >= 0 ==> q >= 0 && 0 <= a - 2 * q <= 1
    ensures a < 0 ==> q <= 0 && -1 <= a - 2 * q <= 0
  {
    if a >= 0 then a / 2 else -((-a) / 2)
  }

  /** The label is centred over the box; `int` truncates the sum `left + (right-left-width)/2`. */
  function CentredX(box: Box, m: TextMetrics): int
  {
    TruncHalf(box.left + box.right - m.width)
  }

  /**
   * Where `mark_face` puts the label of a face: `None` when there is no text
   * (nothing is written), otherwise the text origin. The label goes above the
   * box when it fits under the image's top edge, else below the box when it
   * fits above the bottom edge, else just inside the top of the box; it is
   * centred horizontally and pushed back inside the image's left or right edge.
   */
  method MarkFace(box: Box, text: string, m: TextMetrics, imgHeight: int, imgWidth: int)
    returns (origin: Option<Point>)
    ensures origin.None? <==> text == ""
    ensures origin.Some? ==>
      var y := origin.value.y;
      && (box.top - m.baseline >= m.height ==> y == box.top - m.baseline)
      && (box.top - m.baseline < m.height && box.bottom + m.height + m.baseline <= imgHeight
          ==> y == box.bottom + m.height)
      && (box.top - m.baseline < m.height && box.bottom + m.height + m.baseline > imgHeight
          ==> y == box.top + m.height)
    ensures origin.Some? ==>
      var x := origin.value.x;
      var c := CentredX(box, m);
      && (c < 0 ==> x == 0)
      && (0 <= c && c + m.width > imgWidth ==> x == imgWidth - m.width)
      && (0 <= c && c + m.width <= imgWidth ==> x == c)
    ensures origin.Some? && 0 <= m.width <= imgWidth ==>
      0 <= origin.value.x && origin.value.x + m.width <= imgWidth
    ensures origin.Some? && origin.value.x == CentredX(box, m) ==>
      -1 <= (box.left + box.right) - (2 * origin.value.x + m.width) <= 1
  {
    if text == "" {
      return None;
    }
    var y := box.top - m.baseline;
    if y < m.height {
      y := box.bottom + m.height;
      if y + m.baseline > imgHeight {
        y := box.top + m.height;
      }
    }
    // int(left + (right - left - width) / 2), where the sum is exactly half of an integer
    var x := TruncHalf(2 * box.left + (box.right - box.left - m.width));
    assert x == CentredX(box, m);
    if x < 0 {
      x := 0;
    } else if x + m.width > imgWidth {
      x := imgWidth - m.width;
    }
    origin := Some(Point(x, y));
  }
}
