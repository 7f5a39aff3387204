# BlackHoleTracer: framebuffer and black-hole record in Dafny

This project models two parts of the BlackHoleTracer renderer in Dafny:

- The CPU **framebuffer** (`FrameBuffer`). It is a grid of RGB colours with a fixed width and height. The colours are stored row-major in one flat vector.
  - `SetPixel` ignores out-of-range coordinates. Otherwise it clamps each component to [0, 1] and stores the colour at `y * width + x`.
  - `GetPixel` returns black for out-of-range coordinates.
  - `Clear` overwrites every pixel with one colour, black by default.
- The **black-hole record** (`BlackHole`). It holds a mass and a position. It also holds a horizon radius, computed once at construction as `2 * G * mass / (c * c)`.

Modules:

- `Vectors` (vectors.dfy): three-component values. `Color` is used for colours. `Vec3` is used for positions, with a real for each component. It also defines componentwise clamping.
- `Raster` (raster.dfy): the row-major layout, specified on sequences.
  - `Index(width, x, y) = y * width + x`, with inverses `Column` and `Row`.
  - `PixelAt` is what `GetPixel` reports.
  - `Written` is the effect of `SetPixel`.
  - `Filled` is the effect of `Clear`.
  - Lemmas prove that `Index` is a bijection from the in-bounds cells onto `[0, width * height)`. Further lemmas prove read-after-write, write locality, idempotence and the range of the stored colours.
- `Framebuffer` (framebuffer.dfy): the class `FrameBuffer`.
  - `width`, `height` and the pixel array are `const` fields. The source has no setter for the dimensions and never resizes the vector after construction. So the pixel count equals `width * height` for the object's whole lifetime.
  - `SetPixel` and `Clear` are methods with `modifies pixels`. Their postconditions give the new contents through `Raster.Written` and `Raster.Filled`.
  - `GetPixel`, `GetWidth` and `GetHeight` are read-only functions.
- `BlackHoles` (blackhole.dfy): the `BlackHole` datatype, the subset type `ValidBlackHole` and `NewBlackHole`, which models the C++ constructor.
  - The C++ getters `GetMass`, `GetPosition` and `GetRadius` are the datatype's fields `mass`, `position` and `radius`.
  - In the C++ the fields are private and only the constructor sets them (blackhole.h:8-10, 16-19). In the model, `ValidBlackHole` admits only records whose radius agrees with their mass. `NewBlackHole` returns that type. A record built directly, or changed by a field update, does not have that type unless it is consistent (`BlackHoles.MassUpdateBreaksConsistency`).
  - `Constants::G` and `Constants::c` come from a header that is not part of this model. They are passed in as a `PhysicalConstants` record, and only `G > 0` and `c != 0` are assumed. The record keeps the constants it was built with.

Two behaviours of the code are worth stating outright:

- `Clear` stores its argument unclamped, unlike `SetPixel` (framebuffer.cpp:24-26). `Raster.FillInUnit` states exactly when the stored colours stay in [0, 1].
- The `BlackHole` constructor checks nothing about the mass (blackhole.h:8-10), so `NewBlackHole` accepts any mass. `BlackHoles.RadiusSign` states what sign the radius then has.

## Model

| member | source | states |
|---|---|---|
| `Vectors.Clamp01` | BlackHoleTracer/Sources/framebuffer.cpp:15 | the result lies in [0, 1]; values already in [0, 1] are kept; values below 0 become 0 and values above 1 become 1 |
| `Vectors.ClampColor` | BlackHoleTracer/Sources/framebuffer.cpp:15 | every component of the result lies in [0, 1]; a colour already in range is unchanged; each component is clamped independently |
| `Vectors.ClampColorIdempotent` | BlackHoleTracer/Sources/framebuffer.cpp:15 | clamping an already clamped colour changes nothing |
| `Raster.Index` | BlackHoleTracer/Sources/framebuffer.cpp:32-34 | `GetIndex`: y * width + x; its properties are the bijection lemmas `RowMajorUnique`, `IndexInRange`, `IndexInjective`, `IndexInverse` and `IndexSurjective` below |
| `Raster.RowMajorUnique` | BlackHoleTracer/Sources/framebuffer.cpp:32-34 | for columns in [0, width), two (x, y) pairs have the same flat index if and only if they are equal |
| `Raster.IndexInRange` | BlackHoleTracer/Sources/framebuffer.cpp:32-34 | an in-bounds cell's index `y * width + x` lies in [0, width * height) |
| `Raster.IndexInjective` | BlackHoleTracer/Sources/framebuffer.cpp:32-34 | distinct in-bounds cells have distinct indices |
| `Raster.IndexInverse` | BlackHoleTracer/Sources/framebuffer.cpp:32-34 | `Column` and `Row` recover x and y from the index of an in-bounds cell |
| `Raster.IndexSurjective` | BlackHoleTracer/Sources/framebuffer.cpp:32-34 | every position in [0, width * height) is the index of some in-bounds cell, so the index mapping is a bijection onto that range |
| `Raster.Written` | BlackHoleTracer/Sources/framebuffer.cpp:12-17 | a write never changes the number of pixels |
| `Raster.ReadOutOfBounds` | BlackHoleTracer/Sources/framebuffer.cpp:19-20 | an out-of-range read returns black, whatever the buffer holds |
| `Raster.WriteOutOfBounds` | BlackHoleTracer/Sources/framebuffer.cpp:13 | an out-of-range write leaves every pixel unchanged |
| `Raster.WriteCells` | BlackHoleTracer/Sources/framebuffer.cpp:15-16 | an in-range write stores the clamped colour at index `y * width + x` and keeps every other flat position |
| `Raster.ReadAfterWrite` | BlackHoleTracer/Sources/framebuffer.cpp:12-22 | after an in-range write of c at (x, y), reading (x, y) gives the clamped c |
| `Raster.ReadOtherAfterWrite` | BlackHoleTracer/Sources/framebuffer.cpp:12-22 | a write at (x, y) does not change what any other coordinate reads back |
| `Raster.WriteIdempotent` | BlackHoleTracer/Sources/framebuffer.cpp:12-17 | repeating the same write gives the same pixels as writing once |
| `Raster.WriteKeepsUnit` | BlackHoleTracer/Sources/framebuffer.cpp:15-16 | if every stored colour is in [0, 1] before a write, that still holds after it |
| `Raster.ReadAfterFill` | BlackHoleTracer/Sources/framebuffer.cpp:19-26 | after a fill, every in-range cell reads back the fill colour exactly, and every other coordinate reads black |
| `Raster.FillInUnit` | BlackHoleTracer/Sources/framebuffer.cpp:24-26 | a filled buffer has all colours in [0, 1] if and only if it is empty or the fill colour itself is in range, since fills do not clamp |
| `Raster.FillIdempotent` | BlackHoleTracer/Sources/framebuffer.cpp:24-26 | filling a buffer that already holds only the fill colour, as a previous fill left it, changes nothing |
| `Framebuffer.FrameBuffer.Contents` | BlackHoleTracer/Headers/framebuffer.h:20-23 | for a valid buffer, the stored sequence holds exactly width * height colours |
| `Framebuffer.FrameBuffer.constructor` | BlackHoleTracer/Sources/framebuffer.cpp:4-10 | the buffer has the given width and height, holds width * height pixels, and every pixel is black |
| `Framebuffer.FrameBuffer.SetPixel` | BlackHoleTracer/Sources/framebuffer.cpp:12-17 | the new pixels are `Written` of the old ones: unchanged when out of range, otherwise only cell `y * width + x` changes, to the clamped colour; the [0, 1] range of the stored colours is preserved |
| `Framebuffer.FrameBuffer.GetPixel` | BlackHoleTracer/Sources/framebuffer.cpp:19-22 | returns the stored colour of an in-range cell and black otherwise, without indexing the array out of range |
| `Framebuffer.FrameBuffer.Clear` | BlackHoleTracer/Sources/framebuffer.cpp:24-26 | every pixel becomes the argument exactly, unclamped (black when no argument is given, framebuffer.h:13); the stored colours are all in [0, 1] if and only if the buffer is empty or the argument is in range |
| `Framebuffer.FrameBuffer.GetWidth` | BlackHoleTracer/Headers/framebuffer.h:17 | the width is non-negative and width * height equals the pixel count |
| `Framebuffer.FrameBuffer.GetHeight` | BlackHoleTracer/Headers/framebuffer.h:18 | the height is non-negative and width * height equals the pixel count |
| `BlackHoles.HorizonRadius` | BlackHoleTracer/Headers/blackhole.h:9 | the radius r satisfies r * c² = 2 * G * mass |
| `BlackHoles.NewBlackHole` | BlackHoleTracer/Headers/blackhole.h:8-14 | mass and position are kept as given, the radius r satisfies r * c² = 2 * G * mass, and the result is a `ValidBlackHole` |
| `BlackHoles.RadiusMatchesMass` | BlackHoleTracer/Headers/blackhole.h:12-19 | every black hole the program can hold has r * c² = 2 * G * mass, so the radius never disagrees with the mass |
| `BlackHoles.MassUpdateBreaksConsistency` | BlackHoleTracer/Headers/blackhole.h:16-19 | doubling the mass of a constructed record with non-zero mass, without recomputing the radius, gives a record that is not consistent, so a `ValidBlackHole` cannot be changed that way |
| `BlackHoles.RadiusFactor` | BlackHoleTracer/Headers/blackhole.h:9 | the radius is the mass times the positive factor 2 * G / c² |
| `BlackHoles.RadiusSign` | BlackHoleTracer/Headers/blackhole.h:9 | the radius is positive, zero or non-negative exactly when the mass is |
| `BlackHoles.RadiusLinear` | BlackHoleTracer/Headers/blackhole.h:9 | scaling the mass by a scales the radius by a |
| `BlackHoles.RadiusDoubles` | BlackHoleTracer/Headers/blackhole.h:9 | constructing with twice the mass gives twice the radius, at any two positions |
| `BlackHoles.RadiusIndependentOfPosition` | BlackHoleTracer/Headers/blackhole.h:8-9 | any two valid black holes with the same constants and mass have the same radius, whatever their positions |

`Raster.PixelAt` and `Raster.Filled` are the specification functions these rows are stated in. `Raster.MulMonotone` and `BlackHoles.SquarePositive` are arithmetic helpers.

## Left out

- `FrameBuffer::GetData` (framebuffer.cpp:28-30) is left out. It returns a raw pointer into the pixel vector for texture upload, and it is undefined for an empty buffer.
- Integers are unbounded. The 32-bit overflow of `width * height` and of `y * mWidth + x` is not modelled. The constructor requires a non-negative width and height. The C++ constructor also accepts negative sizes: `resize` fails when `width * height` is negative, and otherwise builds a buffer in which no coordinate is in range.
- Colours and masses are reals, not `float` or `double`. Rounding is not modelled, and neither is the behaviour of `glm::clamp` on NaN.
- `Constants::G` and `Constants::c` are defined in a header that is not part of this model. They are parameters with G > 0 and c != 0, not fixed values.
- The OpenGL display, texture upload, shaders and image file output (display.cpp, display.h), the window and event loop (main.cpp), the camera (camera.h, camera.cpp) and rays (ray.h) are not part of this model. They are floating-point geometry or I/O glue.
- The geodesic ray marcher, step-size controller, capture and escape classifier and background shading are not part of this model. They run in the GLSL shader that display.cpp:86 loads, which this model does not cover.
