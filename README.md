# complexvis core, modelled in Dafny

complexvis is a small "domain colouring" viewer. It maps every pixel of a
578 x 578 graph area to a point of the complex plane, evaluates the active
complex function (the complex exponential) there, turns the result into a
colour through the Gauss error function, and stores the packed colour in a
flat row-major pixel buffer. When the pointer moves it formats the point
and the value under it as the text line `f(w) = z`.

This project models the exact, non-numerical part of that pipeline:

- `cdouble.dfy` (module `CDouble`, complexvis/cdouble.c): complex values as
  pairs of reals, `cdouble_cons`, `cdouble_add`, `cdouble_mul`, `cdouble_abs`
  and `cdouble_exp` (the last two over supplied `sqrt`, `exp`, `cos`, `sin`),
  and `cdouble_str`: its seven-way template choice, the 63-byte `snprintf`
  cut-off and the `NULL` result of a failed `malloc` (`None`).
- `graph.dfy` (module `Graph`, complexvis/main.c): the layout constants, the
  pixel-to-complex mapper `cdouble_from_coords`, the colour encoder
  `cdouble_to_color` with C's truncating `(int)` cast and its clamp,
  `set_graph_pixel`, and `set_graph_pixels` as a method over an
  `array<Uint32>` with nested loops, column outer and row inner.
- `info.dfy` (module `Info`, complexvis/main.c): the string half of
  `show_info`: map, evaluate, format both values, compose `"f(%s) = %s"`
  under the same 63-byte cut-off, or stop with the fatal allocation error.
- `format.dfy` (module `Format`): what `snprintf(buf, size, ...)` keeps of
  its output, shared by the two formatters.

Every `double` is a Dafny `real`. Operations that the program takes from
libraries are parameters of the members that use them: `erf`, `exp`,
`cos`, `sin`, `sqrt`, the `%.2f` conversion (`fmt2: real -> string`),
`SDL_MapRGBA` (`mapRGBA`) and the active function `graph_fn` (`f`).
Whether `malloc` succeeds is a boolean parameter. Most members place no
hypothesis on these parameters. The ones that do:

- `ErfRange` (erf lies in [-1, 1]) in `Graph.ToColorChannels` and
  `Graph.ToColorMonotone`;
- `erf(0) = 0` in `Graph.ToColorOrigin`;
- the worked examples `CDouble.AbsThreeFour` (sqrt(25) = 5),
  `CDouble.ExpZero` (exp(0) = cos(0) = 1, sin(0) = 0) and
  `CDouble.StrExamples` (three sample outputs of `%.2f`).

Facts of the code that the model keeps:

- `cdouble_to_color` never assigns the alpha field of its colour
  (complexvis/main.c:65-75), and `set_graph_pixel` passes that field to
  `SDL_MapRGBA` (complexvis/main.c:79). Its value is indeterminate, and each
  call has its own, so the fill takes an arbitrary alpha byte per pixel
  (`alpha: (int, int) -> Byte`).
- Pixel (i, j), column i and row j, is stored at `j * GRAPH_WIDTH + i`
  (complexvis/main.c:79). The loops visit the pixels column by column
  (complexvis/main.c:93-100).
- The scale is the truncated quotient 578 / 8 = 72 and the centre is 289, so
  columns 0 and 577 map to -289/72 and 288/72 (complexvis/main.c:57-62).
- The channels are stored in 8-bit fields. The model writes that store out
  as a reduction modulo 256 and proves it never wraps when erf is in [-1, 1].

## Model

| member | source | states |
|---|---|---|
| `CDouble.Cons` | complexvis/cdouble.c:10-15 | the built value has exactly the given real and imaginary parts |
| `CDouble.ConsRoundTrip` | complexvis/cdouble.c:10-15 | construction and the two projections are inverse: parts in, the same parts out, and a value rebuilt from its parts is itself |
| `CDouble.Add` | complexvis/cdouble.c:17-19 | the componentwise sum; its algebra is stated by the three lemmas below |
| `CDouble.AddCommutative` | complexvis/cdouble.c:17-19 | addition is commutative |
| `CDouble.AddAssociative` | complexvis/cdouble.c:17-19 | addition is associative |
| `CDouble.AddZero` | complexvis/cdouble.c:17-19 | 0 + 0i is a two-sided identity of addition |
| `CDouble.Mul` | complexvis/cdouble.c:21-23 | the product (ac - bd) + (ad + bc)i; its algebra is stated by the lemmas below |
| `CDouble.MulCommutative` | complexvis/cdouble.c:21-23 | multiplication is commutative |
| `CDouble.MulOne` | complexvis/cdouble.c:21-23 | 1 + 0i is a two-sided identity of multiplication |
| `CDouble.ImaginaryUnitSquared` | complexvis/cdouble.c:21-23 | i * i = -1 under the product formula |
| `CDouble.MulAssociative` | complexvis/cdouble.c:21-23 | multiplication is associative over the reals |
| `CDouble.MulDistributesOverAdd` | complexvis/cdouble.c:17-23 | multiplication distributes over addition |
| `CDouble.Abs` | complexvis/cdouble.c:25-27 | the supplied square root of re * re + im * im |
| `CDouble.AbsThreeFour` | complexvis/cdouble.c:25-27 | worked example: the magnitude of 3 + 4i is 5 for any square root with sqrt(25) = 5 |
| `CDouble.Exp` | complexvis/cdouble.c:29-31 | e^re (cos im + i sin im) over the supplied exp, cos and sin |
| `CDouble.ExpZero` | complexvis/cdouble.c:29-31 | worked example: e^0 = 1 + 0i for any exp, cos, sin with exp(0) = cos(0) = 1 and sin(0) = 0 |
| `CDouble.Choose` | complexvis/cdouble.c:39-55 | the template the if-chain picks meets that template's own stand-alone condition |
| `CDouble.ChooseIsTheApplyingTemplate` | complexvis/cdouble.c:39-55 | the chain picks template t if and only if t's condition holds |
| `CDouble.TemplatesExclusive` | complexvis/cdouble.c:39-55 | no value meets the conditions of two different templates |
| `CDouble.TemplatesExhaustive` | complexvis/cdouble.c:39-55 | every value meets the condition of some template |
| `CDouble.Render` | complexvis/cdouble.c:39-55 | the seven templates: all but the two pure-imaginary ones start with the formatted real part, and all but the real-axis one end with "i" |
| `CDouble.Str` | complexvis/cdouble.c:33-57 | no text exactly when the buffer cannot be allocated; any text has at most 62 characters |
| `CDouble.StrAllocationFailure` | complexvis/cdouble.c:36-37 | a failed allocation gives no text |
| `CDouble.StrRealAxis` | complexvis/cdouble.c:39-40 | with imaginary part 0 the text is the formatted real part, also when that is 0 |
| `CDouble.StrImaginaryAxis` | complexvis/cdouble.c:41-46 | with real part 0 the text is "i" for exactly i and otherwise the formatted imaginary part followed by "i", so -i is not " - i" |
| `CDouble.StrLowerHalfPlane` | complexvis/cdouble.c:47-50 | below the axis the text is re " - i" for im = -1, otherwise re " - " with the formatted, positive -im and "i" |
| `CDouble.StrUpperHalfPlane` | complexvis/cdouble.c:51-54 | above the axis the text is re " + i" for im = 1, otherwise re " + " im "i" |
| `CDouble.StrExamples` | complexvis/cdouble.c:39-55 | worked example: the expected texts for 3, i, 2.5i, -i, 3 - i, 3 - 2.5i, 3 + i and 3 + 2.5i |
| `Format.Snprintf` | complexvis/cdouble.c:40-54 | the kept text is a prefix of the output, shorter than the size, and all of it when it fits |
| `Format.SnprintfIdempotent` | complexvis/cdouble.c:40 | cutting down a text that was already cut down changes nothing |
| `Format.SnprintfKeepsPrefix` | complexvis/main.c:118 | a short enough leading part of the output survives the cut |
| `Graph.LayoutConstants` | complexvis/main.c:49-52 | INFO_HEIGHT is 22, the graph is 578 x 578, the mapper's centre is 289 and its scale 72 |
| `Graph.FromCoords` | complexvis/main.c:57-62 | re * 72 = i - 289 and im * 72 = j - 289 |
| `Graph.FromCoordsCentre` | complexvis/main.c:57-62 | pixel (289, 289) maps to 0 + 0i |
| `Graph.FromCoordsMonotone` | complexvis/main.c:57-62 | re depends on the column only and im on the row only, each strictly increasing |
| `Graph.FromCoordsInjective` | complexvis/main.c:57-62 | distinct pixels map to distinct points |
| `Graph.TruncToInt` | complexvis/main.c:66-67 | the `(int)` cast truncates toward zero, for both signs |
| `Graph.Norm` | complexvis/main.c:66-70 | for erf in [-1, 1) the channel is the floor of (erf + 1) * 128; at erf 1 or more it is 255 |
| `Graph.NormClampedExactlyAtOne` | complexvis/main.c:66-70 | with erf in [-1, 1] the truncated value is never negative and reaches 256 exactly when erf is 1 |
| `Graph.NormMonotone` | complexvis/main.c:66-70 | the channel never decreases as erf grows within [-1, 1] |
| `Graph.ToColor` | complexvis/main.c:64-76 | red is always 0 and alpha is whatever the unassigned field holds |
| `Graph.ToColorChannels` | complexvis/main.c:64-76 | with erf in [-1, 1], green and blue are min(trunc((erf + 1) * 128), 255) of the real and imaginary parts |
| `Graph.ToColorOrigin` | complexvis/main.c:64-76 | with erf(0) = 0 the origin is coloured (0, 128, 128) |
| `Graph.ToColorSaturates` | complexvis/main.c:69-70 | where erf is 1 the channel is 255, not 256 |
| `Graph.ToColorMonotone` | complexvis/main.c:64-76 | green grows with erf of the real part and blue with erf of the imaginary part |
| `Graph.Index` | complexvis/main.c:79 | every pixel of the graph has its index inside the W*H buffer |
| `Graph.IndexCoords` | complexvis/main.c:78-80 | column and row are the remainder and quotient of the index by the width |
| `Graph.IndexInjective` | complexvis/main.c:78-80 | distinct pixels have distinct indices |
| `Graph.IndexOfCell` | complexvis/main.c:78-80 | every cell is the index of the pixel (k % W, k / W) |
| `Graph.Sample` | complexvis/main.c:95-96 | the active function applied to the point of pixel (i, j) |
| `Graph.Pack` | complexvis/main.c:79 | `SDL_MapRGBA` applied to the four channels of a colour, alpha included |
| `Graph.PixelValue` | complexvis/main.c:95-98 | map, evaluate, encode and pack: the value the fill stores for pixel (i, j), with that pixel's alpha byte |
| `Graph.Column` | complexvis/main.c:94-99 | the inner loop's visits (i, 0), (i, 1), ..., one per row |
| `Graph.Traversal` | complexvis/main.c:93-100 | the columns' visits one after another; the lemmas below give its length and its k-th element |
| `Graph.TraversalLength` | complexvis/main.c:93-100 | the loops visit W * H pixels |
| `Graph.TraversalAt` | complexvis/main.c:93-100 | the k-th visit is column k / H, row k % H |
| `Graph.TraversalVisitsEachPixelOnce` | complexvis/main.c:93-100 | each pixel is visited, and at exactly one step, i * H + j |
| `Graph.FillWritesEachCellOnce` | complexvis/main.c:93-100 | every visit writes inside the buffer and different visits write different cells |
| `Graph.SetGraphPixel` | complexvis/main.c:78-80 | the pixel's cell holds the packed colour and every other cell is unchanged |
| `Graph.SetGraphPixels` | complexvis/main.c:85-101 | afterwards each pixel's cell, and so each cell k read as pixel (k % W, k / W), holds the packed colour of f at that pixel's point, whatever the buffer held; the visiting order is the column-outer traversal |
| `Graph.CellsHoldTheirPixels` | complexvis/main.c:85-101 | after the fill every cell k holds the colour of pixel (k % W, k / W) |
| `Info.InfoText` | complexvis/main.c:118 | the readout is a prefix of "f(" w ") = " z of at most 62 characters: all of it when it fits, exactly 62 characters when it does not |
| `Info.ShowInfo` | complexvis/main.c:105-118 | the readout fails with the allocation message exactly when one of the two buffers is missing |
| `Info.ShowInfoShape` | complexvis/main.c:118 | a successful readout starts with "f(" and has at most 62 characters |
| `Info.ReadoutMatchesFilledCell` | complexvis/main.c:95-98 | for a buffer filled by the fill, the readout at a graph pixel formats a point w and f(w), and that pixel's cell holds the packed colour of the same f(w) |

## Left out

- The SDL and SDL_ttf glue (`error_fatal`, `load_text`, `render`, the
  drawing half of `show_info`, `main` with its initialisation, `atexit`
  handlers and event loop): platform I/O and foreign library calls. A fatal
  error is modelled only as the `Fatal` readout value.
- IEEE-754 behaviour of `double`: rounding, NaN, infinities, signed zero.
  Everything is a `real`, so the template conditions are exhaustive and the
  `(int)` cast never overflows.
- The values of `erf`, `exp`, `cos`, `sin` and `sqrt`: floating-point
  library code, supplied as parameters.
- The digits of `%.2f`: foreign `printf` behaviour, supplied as `fmt2`.
- `SDL_MapRGBA` and the ARGB8888 byte layout: a foreign call, supplied as
  `mapRGBA`; `SDL_AllocFormat` and the never-freed format object are not
  modelled.
- The alpha channel: the source reads an unassigned field whose value C
  leaves indeterminate; the model takes an arbitrary byte per pixel, and
  says nothing about which.
- `graph_fn` selection: the active function is a parameter; that the build
  wires up `cdouble_exp` is not modelled.
- The allocation of the pixel buffer in `main`: the fill takes an array of
  GRAPH_WIDTH * GRAPH_HEIGHT cells as given.
- complexvis/cdouble.h: declarations and a repeated struct definition only.
