/** The row-major layout of a width-by-height grid of colours kept in one flat
    sequence, and the effect of the framebuffer's operations on that
    sequence. These functions are the specification the FrameBuffer class is
    proved against. */
module Raster {
  import opened Vectors

  /** The guard of SetPixel and GetPixel: the cell (x, y) exists. */
  predicate InBounds(width: int, height: int, x: int, y: int) {
    0 <= x < width && 0 <= y < height
  }

  /** Row-major position of cell (x, y): y * width + x. */
  function Index(width: int, x: int, y: int): int {
    y * width + x
  }

  /** The column of flat position i, inverse of Index. */
  function Column(width: int, i: int): int
    requires 0 < width
  {
    i % width
  }

  /** The row of flat position i, inverse of Index. */
  function Row(width: int, i: int): int
    requires 0 < width
  {
    i / width
  }

  /** A flat sequence that holds exactly one colour per cell. */
  predicate Shaped(pixels: seq<Color>, width: int, height: int) {
    0 <= width && 0 <= height && |pixels| == width * height
  }

  /** Every stored colour is displayable. */
  predicate AllInUnit(pixels: seq<Color>) {
    forall i :: 0 <= i < |pixels| ==> InUnit(pixels[i])
  }

  /** Products are monotone in a non-negative factor. */
  lemma MulMonotone(a: int, b: int, k: int)
    requires a <= b && 0 <= k
    ensures a * k <= b * k
  {
    assert b * k - a * k == (b - a) * k;
  }

  /** Two row-major pairs whose columns are in [0, width) are equal exactly
      when their flat positions are. */
  lemma {:induction false} RowMajorUnique(width: int, x1: int, y1: int, x2: int, y2: int)
    requires 0 <= x1 < width && 0 <= x2 < width
    ensures Index(width, x1, y1) == Index(width, x2, y2) <==> x1 == x2 && y1 == y2
  {
    if y1 < y2 {
      MulMonotone(y1 + 1, y2, width);
      assert (y1 + 1) * width == y1 * width + width;
    } else if y2 < y1 {
      MulMonotone(y2 + 1, y1, width);
      assert (y2 + 1) * width == y2 * width + width;
    }
  }

  /** An in-bounds cell has a flat position in [0, width * height). */
  lemma {:induction false} IndexInRange(width: int, height: int, x: int, y: int)
    requires InBounds(width, height, x, y)
    ensures 0 <= Index(width, x, y) < width * height
  {
    MulMonotone(0, y, width);
    MulMonotone(y + 1, height, width);
    assert (y + 1) * width == y * width + width;
  }

  /** Distinct in-bounds cells have distinct flat positions. */
  lemma IndexInjective(width: int, height: int, x1: int, y1: int, x2: int, y2: int)
    requires InBounds(width, height, x1, y1) && InBounds(width, height, x2, y2)
    requires (x1, y1) != (x2, y2)
    ensures Index(width, x1, y1) != Index(width, x2, y2)
  {
    RowMajorUnique(width, x1, y1, x2, y2);
  }

  /** Column and Row recover the cell from its flat position. */
  lemma IndexInverse(width: int, height: int, x: int, y: int)
    requires InBounds(width, height, x, y)
    ensures Column(width, Index(width, x, y)) == x
    ensures Row(width, Index(width, x, y)) == y
  {
    var i := Index(width, x, y);
    assert i == Row(width, i) * width + Column(width, i);
    RowMajorUnique(width, x, y, Column(width, i), Row(width, i));
  }

  /** Every flat position in [0, width * height) is the position of an
      in-bounds cell, so Index is a bijection onto that range. */
  lemma IndexSurjective(width: int, height: int, i: int)
    requires 0 <= width && 0 <= height && 0 <= i < width * height
    ensures 0 < width
    ensures InBounds(width, height, Column(width, i), Row(width, i))
    ensures Index(width, Column(width, i), Row(width, i)) == i
  {
    if width == 0 {
      assert false;
    }
    var r := Row(width, i);
    assert i == r * width + Column(width, i);
    if r < 0 {
      MulMonotone(r, -1, width);
    }
    if height <= r {
      MulMonotone(height, r, width);
    }
  }

  /** What GetPixel reports for (x, y): the stored colour of an in-bounds
      cell, black for any other coordinate. */
  function PixelAt(pixels: seq<Color>, width: int, height: int, x: int, y: int): Color
    requires Shaped(pixels, width, height)
  {
    if !InBounds(width, height, x, y) then Black
    else IndexInRange(width, height, x, y); pixels[Index(width, x, y)]
  }

  /** The pixels after SetPixel(x, y, color): the cell's colour replaced by
      the clamped colour, or nothing changed when (x, y) is out of bounds. */
  function Written(pixels: seq<Color>, width: int, height: int, x: int, y: int, color: Color): (r: seq<Color>)
    requires Shaped(pixels, width, height)
    ensures Shaped(r, width, height)
  {
    if !InBounds(width, height, x, y) then pixels
    else IndexInRange(width, height, x, y); pixels[Index(width, x, y) := ClampColor(color)]
  }

  /** The pixels after Clear(color): n copies of color, not clamped. */
  function Filled(n: nat, color: Color): seq<Color> {
    seq(n, _ => color)
  }

  /** Reading an out-of-bounds coordinate gives black, whatever is stored. */
  lemma ReadOutOfBounds(pixels: seq<Color>, width: int, height: int, x: int, y: int)
    requires Shaped(pixels, width, height) && !InBounds(width, height, x, y)
    ensures PixelAt(pixels, width, height, x, y) == Black
  {
  }

  /** An out-of-bounds write leaves every pixel unchanged. */
  lemma WriteOutOfBounds(pixels: seq<Color>, width: int, height: int, x: int, y: int, color: Color)
    requires Shaped(pixels, width, height) && !InBounds(width, height, x, y)
    ensures Written(pixels, width, height, x, y, color) == pixels
  {
  }

  /** An in-bounds write stores the clamped colour at y * width + x and keeps
      every other flat position. */
  lemma WriteCells(pixels: seq<Color>, width: int, height: int, x: int, y: int, color: Color)
    requires Shaped(pixels, width, height) && InBounds(width, height, x, y)
    ensures 0 <= Index(width, x, y) < |pixels|
    ensures Written(pixels, width, height, x, y, color)[Index(width, x, y)] == ClampColor(color)
    ensures forall i :: 0 <= i < |pixels| && i != Index(width, x, y) ==>
              Written(pixels, width, height, x, y, color)[i] == pixels[i]
  {
    IndexInRange(width, height, x, y);
  }

  /** Reading back an in-bounds write gives the clamped colour. */
  lemma ReadAfterWrite(pixels: seq<Color>, width: int, height: int, x: int, y: int, color: Color)
    requires Shaped(pixels, width, height) && InBounds(width, height, x, y)
    ensures PixelAt(Written(pixels, width, height, x, y, color), width, height, x, y) == ClampColor(color)
  {
    IndexInRange(width, height, x, y);
  }

  /** A write changes what no other cell reads back. */
  lemma ReadOtherAfterWrite(pixels: seq<Color>, width: int, height: int,
                            x: int, y: int, color: Color, x2: int, y2: int)
    requires Shaped(pixels, width, height) && (x2, y2) != (x, y)
    ensures PixelAt(Written(pixels, width, height, x, y, color), width, height, x2, y2)
            == PixelAt(pixels, width, height, x2, y2)
  {
    if InBounds(width, height, x, y) && InBounds(width, height, x2, y2) {
      IndexInjective(width, height, x, y, x2, y2);
      WriteCells(pixels, width, height, x, y, color);
      IndexInRange(width, height, x2, y2);
    }
  }

  /** Repeating the same write changes nothing more. */
  lemma WriteIdempotent(pixels: seq<Color>, width: int, height: int, x: int, y: int, color: Color)
    requires Shaped(pixels, width, height)
    ensures var once := Written(pixels, width, height, x, y, color);
            Written(once, width, height, x, y, color) == once
  {
  }

  /** Writes keep a displayable buffer displayable. */
  lemma WriteKeepsUnit(pixels: seq<Color>, width: int, height: int, x: int, y: int, color: Color)
    requires Shaped(pixels, width, height) && AllInUnit(pixels)
    ensures AllInUnit(Written(pixels, width, height, x, y, color))
  {
    if InBounds(width, height, x, y) {
      WriteCells(pixels, width, height, x, y, color);
    }
  }

  /** After a fill every in-bounds cell reads back the fill colour exactly,
      unclamped, and every other coordinate still reads black. */
  lemma ReadAfterFill(width: int, height: int, color: Color, x: int, y: int)
    requires 0 <= width && 0 <= height
    ensures Shaped(Filled(width * height, color), width, height)
    ensures PixelAt(Filled(width * height, color), width, height, x, y)
            == if InBounds(width, height, x, y) then color else Black
  {
    if InBounds(width, height, x, y) {
      IndexInRange(width, height, x, y);
    }
  }

  /** A filled buffer is displayable exactly when it is empty or the fill
      colour itself is: Clear does not clamp. */
  lemma FillInUnit(n: nat, color: Color)
    ensures AllInUnit(Filled(n, color)) <==> (n == 0 || InUnit(color))
  {
    if n > 0 && AllInUnit(Filled(n, color)) {
      assert Filled(n, color)[0] == color;
    }
  }

  /** Filling a buffer that already holds only color, as a previous fill
      left it, changes nothing: Clear is idempotent. */
  lemma FillIdempotent(pixels: seq<Color>, color: Color)
    requires forall i :: 0 <= i < |pixels| ==> pixels[i] == color
    ensures Filled(|pixels|, color) == pixels
  {
  }
}
