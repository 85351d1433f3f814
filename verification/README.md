# img2asci in Dafny

img2asci converts a raster image into ASCII art. A `Config` holds optional
`ProcessingValues`: the output width and height, three imaging strengths
(sharpen, brightness, contrast) and a grey-scale ramp, which is a string of
bytes from darkest to brightest. `Process` works in four steps:

1. If no `ProcessingValues` record was given, it allocates one holding the defaults.
2. It loads the source image and opens a buffered writer on the output file.
3. It derives a missing height from the width and resizes and adjusts the image.
4. For every pixel, row by row, it writes the ramp byte its luminance selects, and a newline after each row.

This project models that core from `pkg/img2asci/img2asci.go`:

- `go_int.dfy` (module `GoInt`): Go's `byte`, `uint32` and 64-bit `int`, written out over unbounded integers. This covers modulo-2^32 and two's-complement wrap-around and Go's division truncated toward zero, with the division facts the other modules use.
- `raster.dfy` (module `Raster`):
  - the pixel grid the imaging steps produce;
  - the luminance formula with its `uint32` arithmetic;
  - the ramp index computed exactly as written, wrap-around included;
  - `Render`, the byte stream the pixel loop produces when no write fails, with the lemmas that pin down its layout.
- `sink.dfy` (module `Sink`): the `bufio.Writer` as a class. Its state is the bytes it has accepted and its sticky error. Whether a write fails is left to the environment, so every write may fail, and after a failure every later write fails.
- `img2asci.dfy` (module `Img2Asci`):
  - the value record and default filling;
  - the height formula with 64-bit wrap-around and its divide-by-zero panic;
  - the classes `ProcessingValues` and `Config`, whose methods update their fields in place as the Go methods do;
  - the nested pixel loop as `WriteRows`, `WriteRow` and `WriteRowPixels`, each proved against `Render`;
  - `Process`.

Points of the code's behaviour worth stating outright:

- **Rounding term.** The luminance rounding term is `1<<15` (32768).
- **Derived height.** It is `(X * Width * 10) / (X * 16)`. X cancels, so the source's aspect ratio plays no part. For every source of positive width whose products fit in 64 bits, the height is `Width * 10 / 16`.
- **Empty ramp.** Default filling replaces an empty ramp with the default, but it runs only on a record that `Config.defaults` allocates itself. A `ProcessingValues` record the caller supplies is not default-filled at all. With such a record an empty ramp reaches the loop, and the index panics at the first pixel. An image with no pixels still gets one newline per row.

Panics are outcomes (`Crashed(DivideByZero)`, `Crashed(IndexOutOfRange)`), not preconditions.

## Model

| member | source | states |
|---|---|---|
| GoInt.Wrap32 | pkg/img2asci/img2asci.go:159-161 | `uint32` arithmetic: the identity in range, and congruent to the exact value modulo 2^32 |
| GoInt.Wrap64 | pkg/img2asci/img2asci.go:137 | Go `int` arithmetic: the identity in range, and congruent modulo 2^64 |
| GoInt.TruncDiv | pkg/img2asci/img2asci.go:137 | Go's `/` truncates toward zero: the magnitude of the quotient is the floor of the magnitudes' quotient (its product with the divisor is at most the dividend, and one more exceeds it), with the sign of the operands' product |
| GoInt.Bytes | pkg/img2asci/img2asci.go:19 | an ASCII string literal becomes one byte per character, each the character's code |
| GoInt.TruncDivCancel | pkg/img2asci/img2asci.go:137 | a common positive factor of dividend and divisor cancels under Go's `/` |
| Raster.Luminance | pkg/img2asci/img2asci.go:159 | `(19595r + 38470g + 7471b + 1<<15) >> 24` in `uint32` is at most 255 for every input |
| Raster.PixelLuminance | pkg/img2asci/img2asci.go:157-159 | the luminance the loop computes for one grey-converted pixel is at most 255 |
| Raster.LuminanceNoOverflow | pkg/img2asci/img2asci.go:158-159 | for 16-bit channels the weighted sum never wraps (at most 0xFFFF8000), so the shift is exact |
| Raster.LuminanceMonotone | pkg/img2asci/img2asci.go:159 | a pixel that is brighter in every channel never has a lower luminance |
| Raster.LuminanceOfGray | pkg/img2asci/img2asci.go:157-159 | a grey pixel of 8-bit level y (channels y * 0x101) has luminance exactly y |
| Raster.RampIndex | pkg/img2asci/img2asci.go:161 | `(gr * (uint32(len) - 1)) / 255` with each `uint32` step wrapped stays below 16843010 |
| Raster.RampIndexInRange | pkg/img2asci/img2asci.go:161-162 | for any non-empty ramp and gr <= 255 the index is a valid ramp position, wrap or not |
| Raster.RampIndexExact | pkg/img2asci/img2asci.go:161 | for ramps up to 16843010 bytes the index is `gr * (n - 1) / 255`: black picks the first byte, white the last |
| Raster.RampIndexMonotone | pkg/img2asci/img2asci.go:161 | for ramps up to 16843010 bytes, a brighter grey never maps to an earlier ramp position |
| Raster.RampIndexWrapsPastMaxExactRamp | pkg/img2asci/img2asci.go:161 | one byte beyond that size the product wraps, and white maps to the first (darkest) byte |
| Raster.RampByte | pkg/img2asci/img2asci.go:157-162 | the byte written for a pixel is a byte of the ramp |
| Raster.BrighterGrayNotEarlier | pkg/img2asci/img2asci.go:157-162 | for ramps up to 16843010 bytes, a brighter uniform grey never selects an earlier ramp byte |
| Raster.RowPixels | pkg/img2asci/img2asci.go:156-165 | the inner loop's output for a row has exactly one byte per pixel |
| Raster.RowPixelsAt | pkg/img2asci/img2asci.go:156-165 | byte x of a row's output is the ramp byte of pixel x |
| Raster.RowPixelsPrefix | pkg/img2asci/img2asci.go:156-165 | the output of the first x pixels is the first x bytes of the row's output |
| Raster.RowPixelsStep | pkg/img2asci/img2asci.go:156-165 | one more pixel appends exactly its ramp byte |
| Raster.Renderable | pkg/img2asci/img2asci.go:161-162 | the condition under which no index panics: the ramp is non-empty or no row has a pixel (a predicate; RenderableIffSomePixel states it on images) |
| Raster.RenderableIffSomePixel | pkg/img2asci/img2asci.go:152-162 | on an image of imgX by imgY pixels the loop indexes safely exactly when the ramp is non-empty, imgX is 0 or imgY is 0 |
| Raster.Render | pkg/img2asci/img2asci.go:155-170 | the loop's output when no write fails: each row's ramp bytes then a newline, top row first (a specification function; RenderLength, RenderAt and RenderBytesFromTable state its properties) |
| Raster.RenderBytesFromTable | pkg/img2asci/img2asci.go:155-170 | every output byte is a newline or a byte of the ramp |
| Raster.RenderLength | pkg/img2asci/img2asci.go:155-170 | an image of width w and h rows gives exactly h * (w + 1) bytes |
| Raster.RenderAt | pkg/img2asci/img2asci.go:155-170 | row-major layout: byte y*(w+1)+x is pixel (x, y)'s ramp byte for x < w and the newline for x = w |
| Raster.RenderPrefix | pkg/img2asci/img2asci.go:155-170 | the output of the first j rows is a prefix of the whole output |
| Raster.RenderStep | pkg/img2asci/img2asci.go:155-170 | one more row appends its ramp bytes and a newline |
| Raster.RenderableStep | pkg/img2asci/img2asci.go:161-162 | a row the ramp can index keeps the rows seen so far indexable |
| Raster.StopIsStrictPrefix | pkg/img2asci/img2asci.go:162-169 | what is written before any pixel or newline of the loop is a proper prefix of the whole output |
| Raster.BlackSquare | pkg/img2asci/img2asci.go:155-170 | a black 2x2 image with the ramp " #" renders as two rows of spaces |
| Raster.WhiteSquare | pkg/img2asci/img2asci.go:155-170 | a white 2x2 image with the ramp " #" renders as two rows of `#` |
| Sink.Writer.constructor | pkg/img2asci/img2asci.go:128-131 | `bufio.NewWriter` starts with nothing accepted and no error |
| Sink.Writer.WriteString | pkg/img2asci/img2asci.go:162 | success appends the whole string; failure leaves a proper prefix of it and a sticky error |
| Sink.Writer.WriteByte | pkg/img2asci/img2asci.go:167 | success appends the byte; failure appends nothing and sets the sticky error |
| Sink.Writer.Flush | pkg/img2asci/img2asci.go:88-95 | moves no new bytes into the stream and keeps an earlier error |
| Img2Asci.WithDefaults | pkg/img2asci/img2asci.go:54-74 | each zero or empty field takes its default (240, 5, 5, 75, `.:-=+*#%@`); set fields and the height are kept; the result is complete |
| Img2Asci.CompleteIsFixedPoint | pkg/img2asci/img2asci.go:54-74 | a record with every field set is left unchanged |
| Img2Asci.WithDefaultsIdempotent | pkg/img2asci/img2asci.go:54-74 | filling defaults twice is the same as once |
| Img2Asci.UnsetGetsDocumentedDefaults | pkg/img2asci/img2asci.go:18-24 | an all-zero record becomes width 240, sharp 5, bright 5, contrast 75, ramp `.:-=+*#%@`, height 0 |
| Img2Asci.DerivedHeight | pkg/img2asci/img2asci.go:137 | the height formula in 64-bit `int` panics with a division by zero exactly when `X * 16` wraps to 0 |
| Img2Asci.DerivedHeightIgnoresSource | pkg/img2asci/img2asci.go:137 | with X > 0 and no overflow, the height is `Width * 10 / 16`, independent of X |
| Img2Asci.DerivedHeightOf80Over1600 | pkg/img2asci/img2asci.go:137 | width 80 over a 1600-pixel-wide source gives height 50 |
| Img2Asci.Preprocessed | pkg/img2asci/img2asci.go:136-138 | a set height is kept; a zero height is replaced by the derived one and nothing else changes; a panic only when the height was zero |
| Img2Asci.PreprocessedHeight | pkg/img2asci/img2asci.go:136-138 | with a zero height, X > 0 and no overflow, preprocessing stores `Width * 10 / 16` and changes nothing else |
| Img2Asci.Expected | pkg/img2asci/img2asci.go:155-170 | the loop yields `Render` exactly when the ramp can index every pixel, and otherwise the index panic |
| Img2Asci.FirstPixelPanics | pkg/img2asci/img2asci.go:161-162 | an empty ramp and an image with a pixel give the index panic |
| Img2Asci.WriteRowPixels | pkg/img2asci/img2asci.go:156-165 | the inner loop writes the row's ramp bytes, or a proper prefix of them before a failed write, or panics before writing on an empty ramp |
| Img2Asci.WriteRow | pkg/img2asci/img2asci.go:156-169 | one row is its ramp bytes and a newline; on a failed write a proper prefix of them; the panic exactly for an empty ramp and a non-empty row |
| Img2Asci.StoppedInRow | pkg/img2asci/img2asci.go:162-169 | a write that fails in row y leaves a proper prefix of the whole output |
| Img2Asci.NextRow | pkg/img2asci/img2asci.go:155-170 | a completed row extends the output for the rows above it to the output for one row more |
| Img2Asci.WriteRows | pkg/img2asci/img2asci.go:155-172 | the pixel loop writes all of `Render` and succeeds, or stops at the first failed write with a proper prefix written, or panics before writing |
| Img2Asci.ProcessingValues.constructor | pkg/img2asci/img2asci.go:38 | `&ProcessingValues{}` has every field zero or empty |
| Img2Asci.ProcessingValues.Of | pkg/img2asci/img2asci.go:43-52 | a record the caller fills in holds exactly the given values |
| Img2Asci.ProcessingValues.Defaults | pkg/img2asci/img2asci.go:54-74 | the fields afterwards are `WithDefaults` of the fields before |
| Img2Asci.Config.constructor | pkg/img2asci/img2asci.go:26-30 | a configuration holds the given record (possibly nil) and echo flag |
| Img2Asci.Config.Defaults | pkg/img2asci/img2asci.go:32-41 | a nil record is replaced by a fresh fully defaulted one; a supplied record is kept unchanged, unset fields included |
| Img2Asci.Config.Preprocess | pkg/img2asci/img2asci.go:134-146 | the record afterwards is `Preprocessed` of the record before, and the image handed on is the imaging steps applied to it; a divide-by-zero panic leaves the record as it was |
| Img2Asci.Config.Run | pkg/img2asci/img2asci.go:148-173 | preprocessing, then the pixel loop over the preprocessed image with the record's ramp, ending as WriteRows states |
| Img2Asci.Config.Process | pkg/img2asci/img2asci.go:76-98 | the echo flag is never changed; load and create errors are returned in that order, with nothing written and the record left as default filling made it (a fresh defaulted record for nil, the supplied one unchanged); otherwise the outcome is exactly what preprocessing and the pixel loop give for that record: the divide-by-zero panic only when `Preprocessed` panics (height zero and `X * 16` wrapping to 0), the index panic only when the ramp cannot index the image, and then nothing written; otherwise all of `Render` of the final values and image, or a proper prefix of it with the writer failed |

## Left out

- Logging (`Config.Log` and every `Println`): no effect on the output. `Config.Defaults` does not model setting the default logger.
- `loadImage`: file opening and image decoding are I/O. `Process` takes their result as an optional `Decoded` value.
- `createBuffer`: file creation and `io.MultiWriter` with stdout are I/O. `Process` takes the created writer as an optional `Writer`. The echo flag `Term` is stored but has no other effect in the model.
- The imaging library (`imaging.Resize`, `Sharpen`, `AdjustBrightness`, `AdjustContrast`) is foreign code. Its combined effect is the function `imaging` inside `Decoded`, from processing values to a pixel grid.
- `color.GrayModel.Convert` and `RGBA()` are library code. Pixels are modelled as the 16-bit channels the formula on line 159 reads.
- Floating point: sharpen, brightness and contrast are reals. NaN and negative zero are not modelled.
- The `bufio.Writer` buffer and its flushing to the file: the writer is reduced to the bytes it has accepted and its sticky error, and flushing moves no new bytes.
- The error values themselves: outcomes say which step failed, not what error it returned.
- Multi-byte ramp characters: the ramp is a sequence of bytes, and `Bytes` accepts ASCII literals only. Go's `string(b)` on a byte of 0x80 or more would write its two-byte UTF-8 encoding; the model writes the byte itself.
- Img2Asci.DerivedHeightIgnoresSource: the cancellation is proved only when the products fit in 64 bits (`HeightFormulaFits`). Beyond that, `DerivedHeight` models the wrap-around but no closed form is stated.
- Img2Asci.PreprocessedHeight: stated under the same no-overflow condition as DerivedHeightIgnoresSource.
- Raster.RampIndexExact: exact only for ramps up to 16843010 bytes. Beyond that `255 * (n - 1)` wraps in `uint32`, as RampIndexWrapsPastMaxExactRamp shows.
- Raster.RampIndexMonotone: proved only up to the same ramp size as RampIndexExact.
- Img2Asci.Config.Process: does not state the writer's error flag after success or a panic, because the flushes may fail there and their error is dropped.
- `main.go` at the repository root and its flag parsing are not part of this model.
