# Headless canvas back-end: surfaces, readback and fill-colour parsing

This project models the core of a headless HTML-canvas back-end written in
Rust. A script engine drives it through a handful of commands:

- create a surface;
- fill a rectangle;
- set the fill colour from a CSS colour string;
- read a rectangle of pixels back;
- export the surface as a PNG data URL.

Each surface (`CanvasContext`) holds a tiny_skia pixel buffer. The buffer
stores RGBA in **premultiplied** alpha. The surface also holds a paint, a
font slot, a font size and a transform. A registry (`CanvasManager`) keeps
the surfaces in a map keyed by id and hands out ids from a counter.

The model has six modules:

- `Wrappers` (`wrappers.dfy`): `Option` and `Result`.
- `Ints` (`ints.dfy`): the `u8` and `i32` newtypes and two multiplication
  lemmas. Readback arithmetic uses the `i32` newtype, so the verifier
  proves that none of the source's `i32` operations overflow, under two
  preconditions: `RegionFits` (the rectangle's `w*h*4` capacity and
  coordinates fit in `i32`) and `Pixmap.Addressable` (the buffer's byte
  offsets fit in `i32`).
- `Str` (`str.dfy`): the Rust `str` operations the colour parser uses.
  These are ASCII lower-casing, `replace`, `trim_matches`, `split`, and
  slicing at UTF-8 byte offsets. A slice that is out of range, or that
  falls inside a character, is `None`; in Rust it panics.
- `Colors` (`colors.dfy`): `parse_css_color`. It accepts a lenient subset of
  CSS Color Module Level 4: section 5.1 for `rgb()`/`rgba()` and section
  5.2 for `#RRGGBB`. The source's panics become `Err` results.
- `Canvas` (`canvas.dfy`): the pixel buffer, `CanvasContext::new`, and the
  readback `get_unpremultiplied_rect`. The readback is an imperative method
  with a nested loop. It is proved equal to the specification function
  `Region(Straight(pixmap), ...)`, which is built row by row. `Region` is
  defined over any sampler (a function from a coordinate to four bytes), so
  the layout lemmas (output length, row-major index correspondence) hold
  for any sampler. Separate lemmas prove the per-pixel cases of
  `StraightPixel`, the sampler that readback uses.
- `Registry` (`registry.dfy`): `CanvasManager` as a class. Its fields are a
  `map<nat, Context>` and a counter. The command handlers are methods on it.
  Contexts are values: a handler that updates a surface in place replaces
  that surface's map entry.

Three parts are external libraries and are passed in as parameters:

- decimal parsing (`str::parse::<f32>`) is a `NumberParser`;
- tiny_skia's rectangle rasteriser is a `Rasterizer`, which must keep the
  buffer length;
- PNG encoding followed by base64 is an `Encoder`.

Every property below holds for any choice of these parameters.

Where the code panics, the model returns an error result:

- A lookup miss in `get_image_data` or `to_data_url` panics
  (`expect("Canvas not found")`). The model returns
  `Err(CanvasNotFound(id))`. A miss in fill and set-fill-style does
  nothing, as in the code.
- The colour parser panics on a `#` string whose byte pairs cannot be
  sliced (for example `#fff`). The model returns `Err(SliceOutOfBounds)`.
- The colour parser also panics when `Color::from_rgba(..).expect` refuses
  the premultiplied channels. The model returns `Err(InvalidColor)` when a
  channel is outside [0, 1]. The source also refuses a NaN channel, which a
  real-valued parser cannot produce (see `Colors.RgbBranch` under
  "## Left out").
- `u8::from_str_radix` accepts a leading `+`, so `#+f+f+f` decodes to
  (15, 15, 15). The model does the same.

## Model

| member | source | states |
|---|---|---|
| Canvas.NewContext | src/api/canvas.rs:22-34 | the buffer has the requested width and height, is valid and is all zero bytes; the paint is opaque black with anti-aliasing on; there is no font; the font size is 12; the transform is the identity |
| Canvas.NewContextReadsTransparent | src/api/canvas.rs:22-34 | a fresh surface reads back as `w*h*4` zero bytes for every rectangle |
| Canvas.PixmapDimensionsFit | src/api/canvas.rs:38-39 | the `as i32` casts of a valid, addressable buffer's width and height do not wrap |
| Canvas.Context.GetUnpremultipliedRect | src/api/canvas.rs:37-71 | the nested row/column loop returns exactly `Region(Straight(pixmap), x, y, w, h)`; no `i32` operation overflows, and the context is not modified |
| Canvas.Context.ReadRow | src/api/canvas.rs:46-67 | the inner loop over the columns appends exactly the `w` samples of row `y + row` |
| Canvas.Context.ReadSample | src/api/canvas.rs:47-66 | one sample is the bounds check, the offset and the alpha case split; it equals `StraightPixel` at `(x + col, y + row)` |
| Canvas.StoredPixel | src/api/canvas.rs:52-53 | an in-bounds pixel's four bytes start at offset `(py*width+px)*4`, lie inside the buffer, and are the bytes returned |
| Canvas.OffsetInBounds | src/api/canvas.rs:51-53 | for an in-bounds sample, the four bytes at `(curr_y*width+curr_x)*4` lie inside the buffer |
| Canvas.RegionLength | src/api/canvas.rs:42-69 | readback yields `max(w,0)*max(h,0)*4` bytes; this is `w*h*4` when `w, h >= 0` |
| Canvas.RegionAt | src/api/canvas.rs:44-48 | readback is row-major: byte `(row*w+col)*4+k` is byte `k` of the sample at `(x+col, y+row)` |
| Canvas.Straight | src/api/canvas.rs:47-66 | the per-sample conversion always yields an RGBA quadruple, so the layout lemmas apply to it |
| Canvas.TransparentRegion | src/api/canvas.rs:42-69 | if every sample is transparent black, readback is all zero bytes |
| Canvas.OutsideIsTransparent | src/api/canvas.rs:51-66 | a sample outside `[0,width) x [0,height)` reads as `(0,0,0,0)` |
| Canvas.ZeroAlphaIsTransparent | src/api/canvas.rs:55-62 | an in-bounds sample whose stored alpha is 0 reads as `(0,0,0,0)`, whatever RGB bytes are stored |
| Canvas.AlphaIsKept | src/api/canvas.rs:55-60 | a nonzero stored alpha is reported unchanged; at alpha 255 all four bytes come back exactly as stored |
| Canvas.OpaqueIsExact | src/api/canvas.rs:57-59 | dividing a channel by alpha 255 returns that channel |
| Canvas.UnpremultiplyRounds | src/api/canvas.rs:55-59 | a channel `c <= a` becomes the integer nearest `c*255/a`, with halves rounded up |
| Canvas.Unpremultiply | src/api/canvas.rs:55-59 | a zero channel stays 0; a channel equal to its alpha becomes 255; a channel above its alpha saturates at 255 (the `as u8` cast) |
| Canvas.StraightPixel | src/api/canvas.rs:51-66 | every sample is four bytes; its cases are stated by `OutsideIsTransparent`, `ZeroAlphaIsTransparent` and `AlphaIsKept` |
| Registry.CanvasManager.constructor | src/api/canvas.rs:83-99 | `CanvasManager::new` and `init_state` start with no surfaces and `next_id == 0`, and the registry invariant holds |
| Registry.CanvasManager.Create | src/api/canvas.rs:155-162 | returns the old `next_id`, which was unused; inserts a fresh 300x150 context under it; increments `next_id`; leaves every other entry unchanged; keeps every key below `next_id` |
| Registry.CanvasManager.FillRect | src/api/canvas.rs:121-138 | a miss changes nothing; a hit replaces only that surface's buffer with the rasteriser's output, drawn with its own paint and transform |
| Registry.CanvasManager.SetFillStyle | src/api/canvas.rs:179-188 | a miss changes nothing; a hit sets only that surface's paint colour to `parse_css_color(color_str)`; a parser panic is an error that changes nothing |
| Registry.CanvasManager.GetImageData | src/api/canvas.rs:140-152 | a miss is `CanvasNotFound`; a hit yields that surface's readback of the rectangle |
| Registry.CanvasManager.ToDataUrl | src/api/canvas.rs:164-177 | a miss is `CanvasNotFound`; a hit yields the data URL of that surface's encoded buffer |
| Registry.DataUrl | src/api/canvas.rs:176 | the URL starts with `data:image/png;base64,` and the payload follows it unchanged |
| Registry.DefaultContextIsGood | src/api/canvas.rs:159 | a freshly created 300x150 surface meets the registry invariant |
| Colors.ParseCssColor | src/helpers/colors.rs:3-48 | every colour returned has all four channels in [0, 1] |
| Colors.Normalize | src/helpers/colors.rs:5 | the normalised text has no spaces and no upper-case ASCII letters |
| Colors.NormalizeIdempotent | src/helpers/colors.rs:5 | normalising twice is the same as normalising once |
| Colors.ParseIgnoresCaseAndSpaces | src/helpers/colors.rs:5 | the result depends only on the lower-cased, space-free text |
| Colors.OtherTextIsBlack | src/helpers/colors.rs:7-47 | text that starts with neither `rgb` nor `#` yields opaque black |
| Colors.RgbTooFewFieldsIsBlack | src/helpers/colors.rs:9-47 | an `rgb` string with fewer than three comma-separated fields yields opaque black |
| Colors.RgbBranch | src/helpers/colors.rs:14-27 | with at least three fields, the result is the premultiplied colour of the fields, and it is `InvalidColor` exactly when a channel is outside [0, 1] |
| Colors.FieldsColor | src/helpers/colors.rs:16-25 | an unparsable R, G or B field counts as 0 and an unparsable alpha as 1; alpha comes from the fourth field only when there are exactly four |
| Colors.RgbFields | src/helpers/colors.rs:9-12 | the trimmed text splits into one more field than it has commas, and no field contains a comma |
| Colors.FieldsColorPremultiplied | src/helpers/colors.rs:16-27 | with channels in 0..255 and alpha in [0, 1], the colour is in range, no colour channel exceeds alpha, and each channel is `field/255 * alpha` |
| Colors.RgbPremultiplied | src/helpers/colors.rs:14-27 | in that case the `rgb` branch does not panic and returns the premultiplied colour |
| Colors.RgbOpaqueIsStraight | src/helpers/colors.rs:19-27 | without exactly four fields, alpha is 1 and each channel is its field divided by 255 |
| Colors.RgbColor | src/helpers/colors.rs:27 | a colour is returned only when all four channels are in [0, 1] |
| Colors.FromRgba | src/helpers/colors.rs:27 | `Color::from_rgba` succeeds exactly when all four channels are in [0, 1], and then keeps them |
| Colors.FromRgba8 | src/helpers/colors.rs:40 | each byte `v` becomes `v/255`, which lies in [0, 1] |
| Colors.TwoCharHexByte | src/helpers/colors.rs:34-38 | a two-character slice parses as a base-16 byte exactly when it is two hex digits (value `16*hi+lo`) or `+` followed by one hex digit |
| Colors.HexValue | src/helpers/colors.rs:34-38 | a value exists exactly when every character is a hex digit; the value spelt by at most two hex digits is below 256 |
| Colors.ParseHexByte | src/helpers/colors.rs:34-38 | `u8::from_str_radix(_, 16)` succeeds only on a nonempty string of hex digits with an optional leading `+` (not `+` alone), and always succeeds on one or two hex digits |
| Colors.HexColor | src/helpers/colors.rs:32-47 | the `#` branch returns an opaque colour in range or panics on a slice (`SliceOutOfBounds`, its only error); a string shorter than 3 bytes always panics |
| Colors.HexDigit | src/helpers/colors.rs:34-38 | a hex digit is an ASCII character and has value below 16 |
| Colors.HexBranchAscii | src/helpers/colors.rs:32-47 | for a `#` string whose first seven characters are ASCII: three parsable pairs give `from_rgba8(r,g,b,255)`, otherwise black; everything after the seventh character is ignored |
| Colors.HexDigitsDecode | src/helpers/colors.rs:32-40 | `#rrggbb` with six hex digits decodes to those bytes with alpha 255 |
| Colors.DigitPairParses | src/helpers/colors.rs:34-38 | two hex digits parse as the byte they spell |
| Colors.HexBranchShortAscii | src/helpers/colors.rs:32-38 | an ASCII `#` string shorter than 7 characters panics on a slice (`SliceOutOfBounds`) unless an earlier pair fails to parse, which gives black |
| Str.StartsWith | src/helpers/colors.rs:7 | `starts_with` holds exactly when the prefix is no longer than the text and matches it character by character |
| Str.Lowercase | src/helpers/colors.rs:5 | lower-casing keeps the length and maps every character through ASCII lower-casing |
| Str.Remove | src/helpers/colors.rs:5 | `replace(" ", "")` leaves no space, and every other character keeps its number of occurrences |
| Str.RemoveAppend | src/helpers/colors.rs:5 | removal works piece by piece, so the kept characters stay in their order |
| Str.TrimMatchesIsInnerSlice | src/helpers/colors.rs:10 | `trim_matches` returns a contiguous slice of the input, with only matching characters cut from either end |
| Str.TrimMatches | src/helpers/colors.rs:10 | the result is never longer than the input, and text with no matching character is returned unchanged |
| Str.TrimMatchesEnds | src/helpers/colors.rs:10 | a nonempty trimmed string neither starts nor ends with a matching character |
| Str.Split | src/helpers/colors.rs:11-12 | `split(',')` yields one more part than there are commas, no part contains a comma, and joining the parts restores the input |
| Str.SplitJoin | src/helpers/colors.rs:11-12 | splitting comma-free parts joined by commas returns those parts |
| Str.CharIndex | src/helpers/colors.rs:34-38 | a byte offset is found exactly at character boundaries: the characters before the found index occupy exactly that many UTF-8 bytes |
| Str.CharIndexAtBoundary | src/helpers/colors.rs:34-38 | every character boundary is a valid slice offset |
| Str.ByteSlice | src/helpers/colors.rs:34-38 | `&s[lo..hi]` succeeds only when `lo <= hi <= s.len()`; the slice is exactly `hi - lo` UTF-8 bytes long and is the run of characters that starts at byte offset `lo` |
| Str.ByteSliceAtBoundaries | src/helpers/colors.rs:34-38 | slicing between two character boundaries `i <= j` always succeeds and yields the characters `s[i..j]` |
| Str.AsciiSlice | src/helpers/colors.rs:34-38 | inside an ASCII prefix, byte slicing succeeds and yields those characters |
| Str.AsciiSlicePastEnd | src/helpers/colors.rs:34-38 | slicing an ASCII string past its end panics |

## Left out

- Canvas.UnpremultiplyRounds: the source computes in `f32` (`c / (a/255.0)` and then `round()`). The model uses exact rational arithmetic: the nearest integer, with halves rounded up. Only the alpha-0 and alpha-255 cases are exact claims about the source. The two can differ by one where the `f32` quotient lands within rounding error of a half.
- Colors.ParseCssColor: decimal parsing (`str::parse::<f32>`) is an arbitrary `NumberParser` parameter. `f32` rounding in the `/ 255.0` and `* a` steps is not modelled; channels are exact reals.
- Str.Lowercase: only ASCII letters are lower-cased. Rust's `to_lowercase` also maps non-ASCII letters and can change their UTF-8 length. The two differ only on text that contains non-ASCII letters.
- Colors.RgbBranch: `str::parse::<f32>` also yields `inf` and `NaN` (for `inf`, `nan`, or an overflowing literal such as `1e39`). The source then panics on a NaN channel, for example `inf * 0.0` in `rgba(1e39,0,0,0)`. A `NumberParser` returns reals only, so the model cannot produce a NaN channel and returns a colour for that input. `InvalidColor` exactly when a channel is outside [0, 1] holds for the model only.
- Canvas.Context.GetUnpremultipliedRect: modelled only for pixmaps whose byte offsets fit in `i32` (`Pixmap.Addressable`). tiny_skia's `Pixmap::new` does not guarantee that, but every 300x150 surface the registry creates meets it (`Registry.DefaultContextIsGood`).
- Canvas.NewContext: `Pixmap::new(width, height).unwrap()` panics on a zero dimension or on a size tiny_skia refuses (a row wider than `i32::MAX` bytes). Those sizes are excluded by a precondition. The only caller, `op_canvas_create` (src/api/canvas.rs:159), passes 300x150, which meets it.
- Registry.CanvasManager.FillRect: rasterisation is tiny_skia's and is an abstract `Rasterizer` that keeps the buffer length. The model does not cover its coverage, blending or transform, nor the panic of `Rect::from_xywh(..).unwrap()` on a rectangle it refuses.
- Registry.CanvasManager.ToDataUrl: PNG encoding and base64 form an abstract `Encoder`. The model does not cover the panic of `encode_png().expect(..)`.
- Registry.CanvasManager.Create: `next_id += 1` would overflow `u32` on the 2^32-th creation. That case is a precondition (`next_id < u32::MAX`).
- Registry.CanvasManager.GetImageData: the readback's `w*h*4` capacity and its coordinates must not overflow `i32`, and the capacity must not be negative. This is a precondition (`RegionFits`), as for the readback itself. The source panics or wraps in those cases.
- `RefCell` borrow checking, the "already in use" failure it gives on re-entrant access, and the single-threaded command dispatch are not modelled.
- The script-engine plumbing (`OpState`, the op macros, `get_extension`) is not modelled. Neither is the scripting-side shim (src/api/canvas.js) or process startup (src/main.rs).
- The font, font-size and transform fields are stored but never interpreted. The transform is only handed to the rasteriser.
