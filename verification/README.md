# SIP generated pixel programs, modelled in Dafny

SIP is a small image-processing language whose compiler emits C++ host
programs against a runtime library (`Sip::Image`, `Sip::ClProgram`). This
project models the two generated programs that transform an image with
integer arithmetic on the host, and the part of `Sip::Image` they rely on:

- `test-color-threshold`: clone the geometry of `src` into the temporary
  image, visit every `(row, col)` with two nested loops, set each of red,
  green and blue to `value > 128 ? 255 : 0`, copy alpha, then assign the
  temporary image to `dst`.
- `test-flip-colors`: the same shape, but the colour channels rotate
  (red takes green, green takes blue, blue takes red).

Files:

- `pixels.dfy` (module `Pixels`): the 8-bit channel type, the RGBA pixel, and
  the `(char)` write-back into an unsigned 8-bit field (`ToByte`, value
  modulo 256).
- `grids.dfy` (module `Grids`): pixel grids as values, `MapGrid` (a per-pixel
  function applied to every cell), and the row-major visit order of the
  nested loops, with the proof that it visits every in-bounds cell exactly once.
- `image.dfy` (module `Images`): class `Image` with `width`, `height` and a
  mutable `array2<Pixel>` indexed `[row, col]`; `Clone` (`clone`), `Assign`
  (`operator=`), the read side of the pixel accessor (`At`).
- `color_threshold.dfy` (module `ColorThreshold`) and `flip_colors.dfy`
  (module `FlipColors`): the per-channel rule, the nested-loop method that
  writes the temporary image in place, the whole program from `clone` to the
  final assignment, and the lemmas about the rule (strictness, idempotence,
  three rotations are the identity).

Each loop method is proved against `MapGrid` of the per-pixel function over
the source image's grid; its ghost out-parameter `order` records the cells in
the order visited and is proved equal to `RowMajor(height, width)`, of which
`RowMajorOccurrences` proves that every in-bounds cell occurs exactly once and
nothing else occurs. `Run` then states the geometry of the temporary image, its
pixels, that the destination is a deep copy of it with storage of its own, and
that the source image is unchanged.

## Model

| member | source | states |
|---|---|---|
| Pixels.ToByte | src/tests/good/test-color-threshold.cppout.cpp:32-34 | storing `(char)v` into a byte channel keeps `v` modulo 256, and keeps `v` unchanged when `0 <= v < 256` (the write-back loses nothing) |
| Grids.MapGrid | src/tests/good/test-color-threshold.cppout.cpp:17-37 | applying a per-pixel function to a grid keeps the number of rows and each row's length, and each output cell is the function of the input cell at the same `(row, col)` |
| Grids.RowOccurrences | src/tests/good/test-color-threshold.cppout.cpp:19-20 | the inner loop over `col` visits `(row, c)` exactly once for each `0 <= c < width` and no other cell |
| Grids.RowMajorOccurrences | src/tests/good/test-color-threshold.cppout.cpp:17-20 | the nested loops visit every cell with `0 <= row < height`, `0 <= col < width` exactly once and no cell out of bounds |
| Images.Image.At | src/out/sip.h:75 | reading `img(row, col)` for `0 <= row < height`, `0 <= col < width` gives the pixel at that row and column of the image's grid, the same cell that `Clone`, `Assign` and the loop methods speak of |
| Images.Image.constructor | src/out/sip.h:62 | a new image is valid and has width and height 0 |
| Images.Image.Clone | src/out/sip.h:68 | `clone(img)` gives the image the width and height of `img` with fresh storage, leaves `img` as it was, and changes nothing when `img` is the image itself |
| Images.Image.Assign | src/out/sip.h:76 | `operator=` makes the image a deep copy of `rhs` (same geometry, same pixel at every `(row, col)`, storage not shared), leaves `rhs` as it was, and changes nothing on self-assignment |
| ColorThreshold.Threshold | src/tests/good/test-color-threshold.cppout.cpp:28-30 | a thresholded channel is always 0 or 255, and it is 255 exactly when the input is strictly greater than 128 |
| ColorThreshold.ThresholdPixel | src/tests/good/test-color-threshold.cppout.cpp:28-35 | the threshold rule is applied to red, green and blue independently, and alpha is kept |
| ColorThreshold.ThresholdIsStrict | src/tests/good/test-color-threshold.cppout.cpp:28-30 | an input of exactly 128 maps to 0, and 129 maps to 255 |
| ColorThreshold.ThresholdPixelIdempotent | src/tests/good/test-color-threshold.cppout.cpp:28-34 | thresholding a pixel twice gives the same pixel as thresholding it once |
| ColorThreshold.ThresholdGridIdempotent | src/tests/good/test-color-threshold.cppout.cpp:17-37 | running the threshold over its own output leaves the image unchanged |
| ColorThreshold.ThresholdPixels | src/tests/good/test-color-threshold.cppout.cpp:17-37 | after the nested loops every pixel of the temporary image is the thresholded pixel of `src` at the same `(row, col)` (alpha copied), the cells were visited in row-major order, and only the temporary image's storage was written |
| ColorThreshold.Run | src/tests/good/test-color-threshold.cppout.cpp:16-39 | after the program the temporary image has the width and height of `src` and its thresholded pixels, `dst` has the same geometry and pixels, both hold newly allocated storage (shared with neither each other nor `src`), and `src` is unchanged |
| FlipColors.Rotate | src/tests/good/test-flip-colors.cppout.cpp:28-35 | one rotation gives red = input green, green = input blue, blue = input red, and keeps alpha |
| FlipColors.RotatePermutes | src/tests/good/test-flip-colors.cppout.cpp:28-35 | a rotation keeps alpha and only permutes the three colour values among red, green and blue |
| FlipColors.RotateThrice | src/tests/good/test-flip-colors.cppout.cpp:28-30 | rotating a pixel three times returns the original pixel |
| FlipColors.RotateFixed | src/tests/good/test-flip-colors.cppout.cpp:28-30 | one rotation, and also two rotations, leave a pixel as it was exactly when its red, green and blue are equal |
| FlipColors.RotateGridThrice | src/tests/good/test-flip-colors.cppout.cpp:17-37 | running the flip program three times gives back the original pixel grid |
| FlipColors.RotatePixels | src/tests/good/test-flip-colors.cppout.cpp:17-37 | after the nested loops every pixel of the temporary image has red = input green, green = input blue, blue = input red and the input alpha, the cells were visited in row-major order, and `im1` was only read |
| FlipColors.Run | src/tests/good/test-flip-colors.cppout.cpp:16-39 | after the program the temporary image has the width and height of `im1` and its rotated pixels, `im2` has the same geometry and pixels, both hold newly allocated storage (shared with neither each other nor `im1`), and `im1` is unchanged |

## Left out

- Reading and writing bitmap files, and the `width()`/`height()` getters
  (`template/sip.cpp:11-29`): they forward to the EasyBMP codec, which is not
  part of this model. The source image is any valid `Image` passed in; writing
  is not modelled; width and height are the fields `width` and `height`.
- The pixel accessor (`template/sip.cpp:31-34`) forwards `(i, j)` to the
  codec, whose index order is not part of this model; it is modelled as the
  generated programs use it, `(row, col)` with `row < height`, `col < width`.
- The bodies of `Image()`, `clone` and `operator=` are not part of this model
  either (only their declarations in `src/out/sip.h`). The model follows their
  documented behaviour: a new image is empty (0 by 0), `clone` resizes without
  promising pixel values and is a no-op on itself, assignment is `clone` plus a
  copy of every pixel and a no-op on itself. Bit depth is not modelled: every
  image is 32-bit RGBA.
- The copy constructor `Image(const Image&)` (`src/out/sip.h:63`): no
  generated program in the modelled core uses it.
- The four channel stores of one pixel are gathered on one pixel value and
  written back with a single array store; nothing reads the pixel between the
  stores, so the result is the same. Likewise the programs read
  each colour channel of `src(row, col)` twice (the second read only gives
  `red_out`, `green_out` and `blue_out` a first value, which is overwritten
  before use) and alpha once; the model reads the pixel once per cell, which
  gives the same values because nothing writes the source image.
- `unsigned int` and `int` arithmetic in the programs is modelled with
  unbounded integers: every value is a channel value 0..255 or a loop index
  below the image size, so no 32-bit wrap-around can occur.
- `ClProgram` (kernel compilation, `RunKernel`, `ApplyFilter`) and the
  `CompileClFile` call at the start of each program: device I/O and foreign
  OpenCL calls whose implementation is not part of this model.
- `Histogram` and `copyRangeTo` (`src/out/sip.h:69-73`, `85-97`): only their
  declarations exist, so there is no behaviour to model.
- The grayscale program (`test-color-to-gray`) and the GPU filter programs:
  floating-point arithmetic and device execution.
- Construction of the global objects and the process entry and exit of `main`.
