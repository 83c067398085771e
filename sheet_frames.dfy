/** Cutting frames out of one row of a sprite sheet.
    A frame is described by the rectangle of the sheet it is copied from and
    by whether it is mirrored horizontally; the pixels themselves are not
    modelled. */
module SheetFrames {

  /** An axis-aligned rectangle in sheet pixels: top-left corner and size. */
  datatype Rect = Rect(x: int, y: int, width: int, height: int)

  /** One cut frame: where on the sheet it comes from, and whether it is flipped. */
  datatype Frame = Frame(source: Rect, flipped: bool)

  /** The frame in column `col` of row `row` of a sheet of
      `frameWidth` x `frameHeight` cells. */
  function Cut(row: int, col: int, frameWidth: int, frameHeight: int, flipX: bool): (frame: Frame)
  {
    Frame(Rect(col * frameWidth, row * frameHeight, frameWidth, frameHeight), flipX)
  }

  /** The first `n` frames of row `row`, in column order
      (no frames at all when `n` is not positive). */
  function RowFrames(row: int, n: int, frameWidth: int, frameHeight: int, flipX: bool): (frames: seq<Frame>)
    decreases n
  {
    if n <= 0 then []
    else RowFrames(row, n - 1, frameWidth, frameHeight, flipX) + [Cut(row, n - 1, frameWidth, frameHeight, flipX)]
  }

  /** Two rectangles share at least one pixel. */
  predicate Overlap(a: Rect, b: Rect)
  {
    a.x < b.x + b.width && b.x < a.x + a.width &&
    a.y < b.y + b.height && b.y < a.y + a.height
  }

  /** A row of `n` frames holds exactly `n` frames (none for a negative count),
      and frame `col` is the cell in column `col`. */
  lemma {:induction false} RowFramesAt(row: int, n: int, frameWidth: int, frameHeight: int, flipX: bool, col: int)
    requires 0 <= col < n
    ensures |RowFrames(row, n, frameWidth, frameHeight, flipX)| == n
    ensures RowFrames(row, n, frameWidth, frameHeight, flipX)[col] == Cut(row, col, frameWidth, frameHeight, flipX)
  {
    if col < n - 1 {
      RowFramesAt(row, n - 1, frameWidth, frameHeight, flipX, col);
    } else if n > 1 {
      RowFramesAt(row, n - 1, frameWidth, frameHeight, flipX, 0);
    }
  }

  /** The number of frames cut is the requested count, floored at zero. */
  lemma {:induction false} RowFramesLength(row: int, n: int, frameWidth: int, frameHeight: int, flipX: bool)
    ensures |RowFrames(row, n, frameWidth, frameHeight, flipX)| == if n < 0 then 0 else n
  {
    if n > 0 {
      RowFramesLength(row, n - 1, frameWidth, frameHeight, flipX);
    }
  }

  /** Consecutive frames of a row sit side by side: same top edge, and the next
      one starts where the previous one ends. */
  lemma RowFramesAdjacent(row: int, n: int, frameWidth: int, frameHeight: int, flipX: bool, col: int)
    requires 0 <= col && col + 1 < n
    ensures var fs := RowFrames(row, n, frameWidth, frameHeight, flipX);
            |fs| == n &&
            fs[col + 1].source.y == fs[col].source.y &&
            fs[col + 1].source.x == fs[col].source.x + frameWidth
  {
    RowFramesAt(row, n, frameWidth, frameHeight, flipX, col);
    RowFramesAt(row, n, frameWidth, frameHeight, flipX, col + 1);
  }

  /** With a non-negative cell width, column `j` starts at or after the right
      edge of an earlier column `i`. */
  lemma ColumnsOrdered(i: int, j: int, width: int)
    requires i < j && 0 <= width
    ensures i * width + width <= j * width
  {
    var gap := j - i - 1;
    assert gap * width >= 0;
    assert j * width == i * width + width + gap * width;
  }

  /** Different frames of a row are cut from pixel-disjoint rectangles,
      whatever the cell size. */
  lemma RowFramesDisjoint(row: int, n: int, frameWidth: int, frameHeight: int, flipX: bool, i: int, j: int)
    requires 0 <= i < j < n
    ensures var fs := RowFrames(row, n, frameWidth, frameHeight, flipX);
            |fs| == n && !Overlap(fs[i].source, fs[j].source)
  {
    RowFramesAt(row, n, frameWidth, frameHeight, flipX, i);
    RowFramesAt(row, n, frameWidth, frameHeight, flipX, j);
    if frameWidth >= 0 {
      ColumnsOrdered(i, j, frameWidth);
    }
  }
}
