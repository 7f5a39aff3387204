/** The CPU framebuffer: a grid of colours of fixed width and height, kept
    row-major in one flat array, written with bounds checks and clamping. */
module Framebuffer {
  import opened Vectors
  import opened Raster

  class FrameBuffer {
    // Width, height and the pixel store are fixed at construction: the source
    // has no setter for either dimension and never resizes the store again.
    const width: int
    const height: int
    const pixels: array<Color>

    /** The store holds exactly one colour per cell. */
    predicate Valid() {
      0 <= width && 0 <= height && pixels.Length == width * height
    }

    /** The stored colours, row by row. */
    ghost function Contents(): (s: seq<Color>)
      reads pixels
      ensures Valid() ==> Shaped(s, width, height)
    {
      pixels[..]
    }

    /** A width-by-height buffer, every pixel black. */
    constructor (width: int, height: int)
      requires 0 <= width && 0 <= height
      ensures Valid() && fresh(pixels)
      ensures this.width == width && this.height == height
      ensures Contents() == Filled(width * height, Black)
    {
      this.width := width;
      this.height := height;
      pixels := new Color[width * height];
      new;
      Clear();
    }

    /** Stores the clamped colour at (x, y); an out-of-bounds coordinate
        changes nothing. */
    method SetPixel(x: int, y: int, color: Color)
      requires Valid()
      modifies pixels
      ensures Contents() == Written(old(Contents()), width, height, x, y, color)
      ensures AllInUnit(old(Contents())) ==> AllInUnit(Contents())
    {
      if x < 0 || x >= width || y < 0 || y >= height {
        WriteOutOfBounds(old(Contents()), width, height, x, y, color);
        return;
      }
      var clamped := ClampColor(color);
      IndexInRange(width, height, x, y);
      pixels[Index(width, x, y)] := clamped;
      if AllInUnit(old(Contents())) {
        WriteKeepsUnit(old(Contents()), width, height, x, y, color);
      }
    }

    /** The colour at (x, y), or black for an out-of-bounds coordinate, in
        which case the store is not read. */
    function GetPixel(x: int, y: int): (c: Color)
      requires Valid()
      reads pixels
      ensures c == PixelAt(Contents(), width, height, x, y)
      ensures !InBounds(width, height, x, y) ==> c == Black
    {
      if x < 0 || x >= width || y < 0 || y >= height then Black
      else IndexInRange(width, height, x, y); pixels[Index(width, x, y)]
    }

    /** Overwrites every pixel with color, exactly as given (no clamping);
        without an argument the buffer turns black. */
    method Clear(color: Color := Black)
      requires Valid()
      modifies pixels
      ensures Contents() == Filled(width * height, color)
      ensures AllInUnit(Contents()) <==> (width * height == 0 || InUnit(color))
    {
      var i := 0;
      while i < pixels.Length
        invariant 0 <= i <= pixels.Length
        invariant forall k :: 0 <= k < i ==> pixels[k] == color
      {
        pixels[i] := color;
        i := i + 1;
      }
      FillInUnit(width * height, color);
    }

    /** The width given at construction. */
    function GetWidth(): (w: int)
      requires Valid()
      ensures 0 <= w && w * height == pixels.Length
    {
      width
    }

    /** The height given at construction. */
    function GetHeight(): (h: int)
      requires Valid()
      ensures 0 <= h && width * h == pixels.Length
    {
      height
    }
  }
}
