# imagequant Go binding: a Dafny model

This project models the Go side of `imagequant`. That is a cgo binding over the C library
libimagequant, plus the pixel-packing routine of its `gopngquant` command.

- **Palette** (`palette.dfy`, module `Palettes`): the value copy of a `liq_palette`, with
  `Count` and the bounds-checked lookup `At`.
- **Image and Result** (`imagequant.dfy`, module `Imagequant`): the two Go objects that wrap
  native handles. They are modelled as classes:
  - `Image` has the Go fields `p`, `w`, `h` and `released`; `Release` sets `released`.
  - `Result` has the Go fields `p` and `im`, a nullable back-reference to the image, which
    Quantize leaves nil (see Findings). Two fields are the model's own: `native`, the palette
    the library holds behind the handle, and the ghost mark `freed`.
  - `NewImage`, `Image.Release`, `Image.Quantize`, `Result.WriteRemappedImage`, the
    dimension getters, `Result.GetPalette` and `Result.Release` are methods and
    functions over that state.
- **GoImageToRgba32** (`gopngquant.dfy`, module `Gopngquant`): the nested loop that packs a
  Go `image.Image` into an RGBA byte buffer. It is modelled as methods over an `array<byte>`.
  They are proved against `Packed`, a specification function that folds the loop's writes
  over the pixels in row-major order.
- Shared Go value types, handles and errors live in `common.dfy` (module `Common`).

The native library is never called. Each call into it is represented by the reply it gives,
passed in as a parameter, so every contract holds for every reply the library could give:
- a status code;
- a result handle and its palette (`QuantizeReply`);
- the indices it writes and the palette it leaves behind the handle, refined by the remap
  (`RemapReply`);
- the image handle `liq_image_create_rgba` returns (`created`).

An `image.Image` is modelled by its bounds and its `At(x, y).RGBA()` colours (`GoImage`).

Three facts about the Go code that the model keeps:
- `NewImage` has no Go-side check that the pixel data is `width*height*4` bytes. The only
  failure is a nil handle from the library.
- `Image.Quantize` does not check `released`. Only `WriteRemappedImage` fails with a
  use-after-free error.
- The buffer `WriteRemappedImage` returns is never filled with palette indices (see
  Findings).

## Model

| member | source | states |
|---|---|---|
| Common.Zeros | Result.go:58-59 | `make([]byte, n)`: exactly n bytes, all zero |
| Palettes.Palette.At | Palette.go:17-29 | no error exactly when 0 <= idx < Count(); otherwise the zero Color and ErrValueOutOfRange; in range, entry idx's four channels |
| Palettes.Palette.Count | Palette.go:13-15 | the stored count, widened to uint and unchanged |
| Palettes.LookupsDetermineColors | Palette.go:13-29 | two palettes that agree on Count and on every in-range At hold the same colours: Count and At expose the whole snapshot |
| Imagequant.Image.constructor | Image.go:26-31 | the Image literal records handle, width and height, with released false |
| Imagequant.NewImage | Image.go:20-32 | a nil handle from the library gives no image and ErrInvalidArgument; otherwise a fresh image with w == width, h == height, released false, whatever the length of the pixel data |
| Imagequant.Image.Release | Image.go:34-38 | released becomes true and nothing else changes; a second call is a caller error (requires !released) |
| Imagequant.Image.Quantize | Image.go:40-48 | a non-OK status gives no result and the translated error; OK gives a fresh Result holding the library's handle and palette, with im left nil; the image is not changed, and the outcome does not depend on its released, w or h |
| Imagequant.Image.QuantizeBound | Image.go:40-48 | the corrected Quantize: the same, except that the Result's im is this image |
| Imagequant.Result.constructor | Result.go:10-13 | the Result struct: handle, back-reference and the palette behind the handle, not yet released |
| Imagequant.Result.GetImageWidth | Result.go:39-42 | the bound image's w, whether or not that image was released; im must not be nil |
| Imagequant.Result.GetImageHeight | Result.go:44-47 | the bound image's h, whether or not that image was released; im must not be nil |
| Imagequant.Result.WriteRemappedImage | Result.go:53-69 | released image: ErrUseAfterFree and no buffer; non-OK status: the translated error and no buffer; OK: a buffer of exactly w*h bytes, all zero, since the library writes into a C copy; once the library was called, the palette behind the handle is the one the library leaves there, and on the use-after-free path it is unchanged |
| Imagequant.Result.WriteRemappedImageCopyBack | Result.go:53-69 | the corrected remap: the same error paths; on OK the w*h buffer holds, at every position, the index the library wrote there; the same palette update |
| Imagequant.Result.GetPalette | Result.go:71-74 | a valid palette equal to the library's current palette (as quantized, or as refined by the last remap); it is a value, so Release, which changes only the freed mark, cannot affect it |
| Imagequant.Result.Release | Result.go:76-79 | marks the result freed and changes nothing else; in particular the bound image and its released flag are untouched |
| Imagequant.UnboundRemapTarget | Image.go:40-48 | after NewImage and a successful Quantize the Result has no image to remap, while QuantizeBound's has one |
| Imagequant.RemapLosesIndices | Result.go:58-68 | a 1x1 image whose pixel the library maps to index 1: WriteRemappedImage returns [0], the copy-back version [1] |
| Gopngquant.HighByteOfChannel | cmd/gopngquant/main.go:20-25 | uint8(v >> 8) of a channel in [0, 0xffff] is its high byte: the kept byte times 256 is at most v, and the next multiple of 256 exceeds v |
| Gopngquant.InBoundsIffLastPixel | cmd/gopngquant/main.go:18-25 | every write y*h+x+k of every visited pixel is inside the w*h*4 buffer exactly when the last pixel's are (both directions) |
| Gopngquant.TallImageIndexOutOfRange | cmd/gopngquant/main.go:16-25 | on a 1x5 image the writes leave the 20-byte buffer: the conversion panics |
| Gopngquant.Packed | cmd/gopngquant/main.go:14-16 | the buffer has w*h*4 bytes, with w and h from Bounds().Max (Bounds().Min is ignored) |
| Gopngquant.GoImageToRgba32 | cmd/gopngquant/main.go:13-30 | on any image whose buffer size fits and whose writes are in bounds, the returned buffer is Packed(im): the zeroed buffer with every pixel's four writes applied in row-major order |
| Gopngquant.PackRows | cmd/gopngquant/main.go:18-27 | the outer loop over y turns the zeroed buffer into Packed(im) |
| Gopngquant.PackRow | cmd/gopngquant/main.go:19-26 | the inner loop over x applies the writes of row y, pixel by pixel, to the buffer |
| Gopngquant.StorePixel | cmd/gopngquant/main.go:22-25 | the loop body stores the four high bytes at o .. o+3 and leaves every other byte unchanged |
| Gopngquant.RowMajorOrdered | cmd/gopngquant/main.go:18-19 | the loops visit pixels in strictly increasing row-major order |
| Gopngquant.RowMajorComplete | cmd/gopngquant/main.go:18-19 | every pixel of the w x h grid is visited |
| Gopngquant.RowMajorInGrid | cmd/gopngquant/main.go:18-19 | every visited pixel lies in the w x h grid |
| Gopngquant.ApplyAllLastWriter | cmd/gopngquant/main.go:18-27 | after a sequence of pixel writes, a byte holds the channel of the last pixel that wrote it |
| Gopngquant.ApplyAllUntouched | cmd/gopngquant/main.go:16-27 | after a sequence of pixel writes, a byte no pixel wrote keeps its old value |
| Gopngquant.PackedLastWriter | cmd/gopngquant/main.go:18-27 | where offsets overlap, each byte of the result comes from the last pixel, in row-major order, whose offsets y*h+x .. y*h+x+3 include it |
| Gopngquant.PackedUnwritten | cmd/gopngquant/main.go:16-27 | a byte no visited pixel writes keeps the 0 from make |
| Gopngquant.TailStaysZero | cmd/gopngquant/main.go:16-27 | every byte after the last pixel's four stays 0 |
| Gopngquant.SecondPixelOverwritesGreen | cmd/gopngquant/main.go:18-25 | on any image at least 2 wide that converts without panicking (Convertible), byte 1 ends up holding the red of pixel (1, 0) |
| Gopngquant.OverlappingPixelsClobber | cmd/gopngquant/main.go:22-25 | on any image at least 2 wide that converts without panicking (Convertible), byte 1 holds pixel (1, 0)'s red where the intended layout has pixel (0, 0)'s green |
| Gopngquant.Rgba32 | cmd/gopngquant/main.go:16 | the intended buffer also has w*h*4 bytes |
| Gopngquant.Rgba32PixelAt | cmd/gopngquant/main.go:22-25 | in the intended layout each pixel's channel k sits at (y*w+x)*4+k, inside the buffer |
| Gopngquant.GoImageToRgba32Fixed | cmd/gopngquant/main.go:13-30 | the conversion with offset (y*w+x)*4 returns exactly Rgba32(im), for every image whose Bounds().Max is non-negative in both coordinates and whose buffer size w*h*4 fits in a Go int |
| Gopngquant.PackRowsFixed | cmd/gopngquant/main.go:18-27 | the corrected outer loop turns the zeroed buffer into Rgba32(im) |
| Gopngquant.PackRowFixed | cmd/gopngquant/main.go:19-26 | the corrected inner loop moves the buffer from the start of row y to the start of row y+1 |
| Gopngquant.FixedStart | cmd/gopngquant/main.go:16 | before the corrected loops run, the buffer is the w*h*4 zero bytes from make |
| Gopngquant.FixedDone | cmd/gopngquant/main.go:18-29 | once the corrected loops have visited every row, the buffer is exactly Rgba32(im) |
| Gopngquant.FixedStep | cmd/gopngquant/main.go:22-25 | one corrected loop turn writes pixel (x, y)'s bytes in bounds at (y*w+x)*4 and appends them to the laid-out prefix |

## Left out

- Attributes.go: every setter and getter is a one-line call into the library, whose range
  checks are not part of this model. `Attributes` is only an opaque handle here.
- Histogram.go, imagequant.go and cflags_linux.go: pass-through calls, a version query and
  build flags, with no Go-side state or checks.
- The float-valued Result members (Result.go:15-37 and 49-51): dithering level, output gamma,
  and quantization and remapping error and quality. They are float pass-throughs to the
  library.
- translateError is not part of this model. A non-OK status becomes the opaque
  `LiqError(code)`.
- Crush and main: file I/O, PNG decoding and encoding, flag parsing and process exit. The
  palettised fill loop in Crush (main.go:73-77) repeats the `y*h+x` indexing, but it relies
  on `image.NewPaletted` and `Set`, which are not modelled.
- The library itself (quantization, remapping, image creation) appears only as the replies
  passed in. `NewImage`'s `gamma` and pixel data go only to the library and are not
  inspected.
- Native memory: `C.CString`/`C.CBytes` copies and their leaks, `liq_*_destroy`, and the
  library's internal parallelism.
- Palettes.Palette.At: assumes the library's promise about `liq_palette`: 256 entry slots, of
  which at most 256 are counted (Valid). A count above 256 would make Go panic at
  `entries[idx]`; that case is not modelled.
- Imagequant.NewImage: the `C.int` conversion of width and height is not modelled. Values
  outside 32 bits reach the library truncated, while the Go object records them unchanged.
- Imagequant.Result.WriteRemappedImage: requires w*h to be non-negative and to fit in a Go
  int. It does not model 64-bit wrap-around of the product, or make's panic on a negative
  size.
- Imagequant.Result.WriteRemappedImage, GetImageWidth, GetImageHeight: a nil back-reference
  is a nil-pointer panic in Go. It is modelled as the precondition im != null.
- Imagequant.Result.Release: the doc comment forbids using a Result after Release, and Go
  does not track it. The model records it in a ghost freed mark, which WriteRemappedImage,
  WriteRemappedImageCopyBack and GetPalette require to be false. The dimension getters read
  only Go fields and do not.
- Imagequant.Image.Release: a second call is excluded by requires !released (a caller
  obligation from the doc comment). The native double free is not modelled.
- Imagequant.Image.Quantize: a call on a released image is not excluded, as in Go. What the
  library then does with a freed handle is left to its reply.
- Gopngquant.GoImageToRgba32: the index-out-of-range panic is not modelled as an outcome.
  The method requires the condition under which no write panics (Convertible), and
  InBoundsIffLastPixel and TallImageIndexOutOfRange characterise that condition. 64-bit
  wrap-around of w*h*4 is excluded by the same requirement.
- Gopngquant.GoImageToRgba32Fixed: requires a non-negative Bounds().Max. An image whose
  Max is negative in both coordinates (a positive w*h, so a non-empty buffer) is excluded.
  Its loops would run zero times and return the zero buffer. Images from png.Decode, the
  only source in the command, have Min at the origin and a non-negative Max.
- Gopngquant.GoImageToRgba32: the colour values are any uint32. The color.Color promise that
  they stay within [0, 0xffff] is used only by HighByteOfChannel.

## Findings

| source | as written | input that shows it | evidently intended | confidence | as-written member | corrected member |
|---|---|---|---|---|---|---|
| cmd/gopngquant/main.go:22-25 | pixel (x, y) is written at y*h+x .. y*h+x+3 | any image at least 2 wide that converts without panicking: byte 1 is pixel (1, 0)'s red, not pixel (0, 0)'s green; a 1x5 image writes byte 20 of a 20-byte buffer and panics | pixel (x, y) at (y*w+x)*4 .. (y*w+x)*4+3 | not executed | Gopngquant.OverlappingPixelsClobber, Gopngquant.TallImageIndexOutOfRange | Gopngquant.GoImageToRgba32Fixed |
| Image.go:41-47 | the Result is returned with its im back-reference never set | NewImage then Quantize with an OK reply: the Result's im is nil, so WriteRemappedImage, GetImageWidth and GetImageHeight dereference nil | the Result is bound to the image it was quantized from | not executed | Imagequant.UnboundRemapTarget | Imagequant.Image.QuantizeBound |
| Result.go:58-68 | the library remaps into C.CBytes(buff), a C copy of buff, and buff is returned | a 1x1 image whose pixel the library maps to index 1: the returned buffer is [0] | the indices the library writes are returned | not executed | Imagequant.RemapLosesIndices | Imagequant.Result.WriteRemappedImageCopyBack |
