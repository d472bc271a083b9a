/** A drawing surface (`CanvasContext`): a premultiplied RGBA pixel buffer
    with the current paint, font and transform, and the readback that turns
    a rectangle of the buffer into straight-alpha RGBA bytes. */
module Canvas {
  import opened Wrappers
  import opened Ints
  import Colors

  /** tiny_skia's `Pixmap`: `width * height` pixels, row-major from the top
      left, four premultiplied bytes (R, G, B, A) each. */
  datatype Pixmap = Pixmap(width: nat, height: nat, data: seq<u8>) {
    /** What `Pixmap::new` guarantees: both dimensions nonzero and `u32`, a
        row of `4 * width` bytes that fits in an `i32`, and exactly one RGBA
        quadruple per pixel. */
    predicate Valid() {
      0 < width && 0 < height && width * 4 <= I32_MAX && height <= U32_MAX
      && |data| == width * height * 4
    }

    /** Every byte offset `(y * width + x) * 4` of a pixel is an `i32`, so the
        readback's offset arithmetic cannot overflow. */
    predicate Addressable() {
      (width * height - 1) * 4 <= I32_MAX
    }
  }

  /** tiny_skia's `Paint`, reduced to what is set here: the colour and the
      anti-aliasing flag. */
  datatype Paint = Paint(color: Colors.Color, antiAlias: bool)

  /** A 2D affine transform in tiny_skia's field order. */
  datatype Transform = Transform(sx: real, ky: real, kx: real, sy: real, tx: real, ty: real)

  const Identity := Transform(1.0, 0.0, 0.0, 1.0, 0.0, 0.0)

  /** A loaded font, held only as an opaque handle: nothing here reads it. */
  datatype Font = Font(handle: nat)

  /** The RGBA quadruple of a fully transparent pixel. */
  const Transparent: seq<u8> := [0, 0, 0, 0]

  /** `CanvasContext`. */
  datatype Context = Context(pixmap: Pixmap, paint: Paint, font: Option<Font>, fontSize: real, transform: Transform) {

    /** `get_unpremultiplied_rect`: walks the `w` by `h` rectangle at `(x, y)`
        row by row, then column by column, and emits each sample in straight
        alpha. It reads the context and changes nothing. */
    method GetUnpremultipliedRect(x: i32, y: i32, w: i32, h: i32) returns (result: seq<u8>)
      requires pixmap.Valid() && pixmap.Addressable()
      requires RegionFits(x as int, y as int, w as int, h as int)
      ensures result == Region(Straight(pixmap), x as int, y as int, w as int, h as int)
    {
      PixmapDimensionsFit(pixmap);
      var fullWidth := pixmap.width as i32;
      var fullHeight := pixmap.height as i32;
      var pixels := pixmap.data;
      result := [];
      var row: i32 := 0;
      while row < h
        invariant 0 <= row as int <= Clamp0(h as int)
        invariant result == Region(Straight(pixmap), x as int, y as int, w as int, row as int)
      {
        var rowBytes := ReadRow(pixels, fullWidth, fullHeight, x, y, w, row);
        RegionNextRow(Straight(pixmap), x as int, y as int, w as int, row as int);
        result := result + rowBytes;
        row := row + 1;
      }
    }

    /** The inner loop of the readback: the `w` samples of row `y + row`
        starting at column `x`. */
    method ReadRow(pixels: seq<u8>, fullWidth: i32, fullHeight: i32, x: i32, y: i32, w: i32, row: i32)
      returns (rowBytes: seq<u8>)
      requires pixmap.Valid() && pixmap.Addressable()
      requires pixels == pixmap.data
      requires fullWidth as int == pixmap.width && fullHeight as int == pixmap.height
      requires 0 <= row
      requires w > 0 ==> x as int + w as int - 1 <= I32_MAX && y as int + row as int <= I32_MAX
      ensures rowBytes == RowBytes(Straight(pixmap), x as int, y as int + row as int, w as int)
    {
      rowBytes := [];
      var col: i32 := 0;
      while col < w
        invariant 0 <= col as int <= Clamp0(w as int)
        invariant rowBytes == RowBytes(Straight(pixmap), x as int, y as int + row as int, col as int)
      {
        var currX := x + col;
        var currY := y + row;
        var sample := ReadSample(pixels, fullWidth, fullHeight, currX, currY);
        RowBytesNext(Straight(pixmap), x as int, currY as int, col as int);
        rowBytes := rowBytes + sample;
        col := col + 1;
      }
    }

    /** One iteration of the readback's inner loop: the bounds check, the
        offset into the buffer and the alpha case split for the sample at
        `(currX, currY)`. */
    method ReadSample(pixels: seq<u8>, fullWidth: i32, fullHeight: i32, currX: i32, currY: i32)
      returns (sample: seq<u8>)
      requires pixmap.Valid() && pixmap.Addressable()
      requires pixels == pixmap.data
      requires fullWidth as int == pixmap.width && fullHeight as int == pixmap.height
      ensures sample == StraightPixel(pixmap, currX as int, currY as int)
    {
      if 0 <= currX < fullWidth && 0 <= currY < fullHeight {
        OffsetInBounds(pixmap, currX as int, currY as int);
        var offset := ((currY * fullWidth + currX) * 4) as int;
        var chunk := pixels[offset..offset + 4];
        if chunk[3] > 0 {
          sample := [Unpremultiply(chunk[0], chunk[3]), Unpremultiply(chunk[1], chunk[3]),
                     Unpremultiply(chunk[2], chunk[3]), chunk[3]];
        } else {
          sample := [0, 0, 0, 0];
        }
      } else {
        sample := [0, 0, 0, 0];
      }
    }
  }

  /** The width and height a pixmap reports fit in an `i32`. */
  lemma PixmapDimensionsFit(p: Pixmap)
    requires p.Valid() && p.Addressable()
    ensures p.width <= I32_MAX && p.height <= I32_MAX
  {
    MulMonotone(1, p.width, p.height);
  }

  /** `CanvasContext::new`: a transparent buffer of the given size, opaque
      black anti-aliased paint, no font, size 12 and the identity transform.
      `Pixmap::new(..).unwrap()` panics on a size it refuses, hence the
      precondition. */
  function NewContext(width: nat, height: nat): (ctx: Context)
    requires 0 < width && width * 4 <= I32_MAX && 0 < height <= U32_MAX
    ensures ctx.pixmap.Valid()
    ensures ctx.pixmap.width == width && ctx.pixmap.height == height
    ensures forall i :: 0 <= i < |ctx.pixmap.data| ==> ctx.pixmap.data[i] == 0
    ensures ctx.paint == Paint(Colors.Black, true)
    ensures ctx.font == None && ctx.fontSize == 12.0 && ctx.transform == Identity
  {
    var paint := Paint(Colors.Black, true);
    Context(Pixmap(width, height, seq(width * height * 4, _ => 0)), paint, None, 12.0, Identity)
  }

  // ---------------------------------------------------------------------
  // Readback specification

  /** What `get_unpremultiplied_rect` needs of its arguments: the capacity
      `w * h * 4` is an `i32` and not negative (a negative one makes
      `Vec::with_capacity` panic), and every coordinate `x + col`, `y + row`
      it computes is an `i32`. */
  predicate RegionFits(x: int, y: int, w: int, h: int) {
    && I32_MIN <= x <= I32_MAX && I32_MIN <= y <= I32_MAX
    && I32_MIN <= w <= I32_MAX && I32_MIN <= h <= I32_MAX
    && 0 <= w * h * 4 <= I32_MAX
    && (w > 0 && h > 0 ==> x + w - 1 <= I32_MAX && y + h - 1 <= I32_MAX)
  }

  /** An in-bounds pixel's four bytes lie inside the buffer, and their
      offset is within the addressable range. */
  lemma OffsetInBounds(p: Pixmap, px: int, py: int)
    requires p.Valid()
    requires 0 <= px < p.width && 0 <= py < p.height
    ensures 0 <= py * p.width + px <= p.width * p.height - 1
    ensures 0 <= (py * p.width + px) * 4 && (py * p.width + px) * 4 + 4 <= |p.data|
  {
    MulMonotone(0, py, p.width);
    MulMonotone(py, p.height - 1, p.width);
    assert (p.height - 1) * p.width == p.width * p.height - p.width;
  }

  /** The stored, premultiplied quadruple of an in-bounds pixel. */
  function StoredPixel(p: Pixmap, px: int, py: int): (q: seq<u8>)
    requires p.Valid() && 0 <= px < p.width && 0 <= py < p.height
    ensures |q| == 4
    ensures 0 <= (py * p.width + px) * 4 && (py * p.width + px) * 4 + 4 <= |p.data|
    ensures forall k :: 0 <= k < 4 ==> q[k] == p.data[(py * p.width + px) * 4 + k]
  {
    var o := (py * p.width + px) * 4;
    OffsetInBounds(p, px, py);
    p.data[o..o + 4]
  }

  /** `(c as f32 / (a as f32 / 255.0)).round() as u8` in exact arithmetic:
      `c * 255 / a` rounded half up, saturated at 255 (see
      `UnpremultiplyRounds`). */
  function Unpremultiply(c: u8, a: u8): (u: u8)
    requires a > 0
    ensures c == 0 ==> u == 0
    ensures c >= a ==> u == 255
  {
    var q := (2 * 255 * c as int + a as int) / (2 * a as int);
    RoundedQuotient(c as int, a as int, q);
    RoundedQuotientEnds(c as int, a as int, q);
    if q > 255 then 255 else q as u8
  }

  /** Unpremultiplying yields the integer nearest to `c * 255 / a` (halves
      rounded up); for a premultiplied channel (`c <= a`) that is at most
      255. */
  lemma UnpremultiplyRounds(c: u8, a: u8)
    requires a > 0
    ensures var u := Unpremultiply(c, a);
      c <= a ==> (2 * u as int - 1) * a as int <= 2 * 255 * c as int < (2 * u as int + 1) * a as int
  {
    var q := (2 * 255 * c as int + a as int) / (2 * a as int);
    RoundedQuotient(c as int, a as int, q);
  }

  lemma RoundedQuotient(c: int, a: int, q: int)
    requires 0 <= c < 256 && 0 < a < 256
    requires q == (2 * 255 * c + a) / (2 * a)
    ensures (2 * q - 1) * a <= 2 * 255 * c < (2 * q + 1) * a
    ensures c <= a ==> q <= 255
    ensures c > a ==> q >= 255
  {
    var n, d := 2 * 255 * c + a, 2 * a;
    var qa := q * a;
    assert d * q <= n < d * q + d by {
      DivBounds(n, d, q);
    }
    assert d * q == 2 * qa;
    assert (2 * q - 1) * a == 2 * qa - a && (2 * q + 1) * a == 2 * qa + a;
    if c <= a {
      assert 2 * qa < 2 * 256 * a;
      MulCancelLess(q, 256, a);
    } else {
      assert 2 * 255 * a < 2 * qa + 2 * a;
      assert 255 * a < (q + 1) * a;
      MulCancelLess(255, q + 1, a);
    }
  }

  /** The rounded quotient is exact at both ends of a premultiplied
      channel: 0 stays 0 and a channel equal to its alpha becomes 255. */
  lemma RoundedQuotientEnds(c: int, a: int, q: int)
    requires 0 < a
    requires (2 * q - 1) * a <= 2 * 255 * c < (2 * q + 1) * a
    ensures c == 0 ==> q == 0
    ensures c == a ==> q == 255
  {
    var qa := q * a;
    assert (2 * q - 1) * a == 2 * qa - a && (2 * q + 1) * a == 2 * qa + a;
    if c == 0 {
      assert qa < 1 * a && -1 * a < qa;
      MulCancelLess(q, 1, a);
      MulCancelLess(-1, q, a);
    } else if c == a {
      assert 254 * a < qa && qa < 256 * a;
      MulCancelLess(254, q, a);
      MulCancelLess(q, 256, a);
    }
  }

  lemma DivBounds(n: int, d: int, q: int)
    requires 0 < d && q == n / d
    ensures d * q <= n < d * q + d
  {
  }

  /** The straight-alpha quadruple readback emits for the sample at
      `(px, py)`: transparent outside the surface or where the stored alpha
      is 0, otherwise each colour channel unpremultiplied and alpha copied. */
  function StraightPixel(p: Pixmap, px: int, py: int): (q: seq<u8>)
    requires p.Valid()
    ensures |q| == 4
  {
    if 0 <= px < p.width && 0 <= py < p.height then
      var s := StoredPixel(p, px, py);
      if s[3] == 0 then Transparent
      else [Unpremultiply(s[0], s[3]), Unpremultiply(s[1], s[3]), Unpremultiply(s[2], s[3]), s[3]]
    else
      Transparent
  }

  /** What readback emits for each sample coordinate. The layout lemmas
      below hold for any sampler; readback uses `Straight(pixmap)`. */
  type Sampler = (int, int) -> seq<u8>

  /** Every sample is an RGBA quadruple. */
  ghost predicate Quadruples(f: Sampler) {
    forall px, py :: |f(px, py)| == 4
  }

  /** A buffer's straight-alpha samples. */
  function Straight(p: Pixmap): (f: Sampler)
    requires p.Valid()
    ensures Quadruples(f)
  {
    (px: int, py: int) => StraightPixel(p, px, py)
  }

  /** The first `n` samples of the row `py`, starting at column `x`. */
  function RowBytes(f: Sampler, x: int, py: int, n: int): seq<u8>
    decreases n
  {
    if n <= 0 then [] else RowBytes(f, x, py, n - 1) + f(x + n - 1, py)
  }

  /** The first `h` rows of the `w`-wide rectangle at `(x, y)`, in row-major
      order. */
  function Region(f: Sampler, x: int, y: int, w: int, h: int): seq<u8>
    decreases h
  {
    if h <= 0 then [] else Region(f, x, y, w, h - 1) + RowBytes(f, x, y + h - 1, w)
  }

  // ---------------------------------------------------------------------
  // Readback layout

  lemma {:induction false} RowBytesLength(f: Sampler, x: int, py: int, n: int)
    requires Quadruples(f)
    ensures |RowBytes(f, x, py, n)| == Clamp0(n) * 4
    decreases n
  {
    if n > 0 {
      RowBytesLength(f, x, py, n - 1);
      assert |f(x + n - 1, py)| == 4;
    }
  }

  /** Readback yields exactly `w * h * 4` bytes, none for an empty or
      negative extent. */
  lemma {:induction false} RegionLength(f: Sampler, x: int, y: int, w: int, h: int)
    requires Quadruples(f)
    ensures |Region(f, x, y, w, h)| == Clamp0(w) * Clamp0(h) * 4
    decreases h
  {
    if h > 0 {
      RegionLength(f, x, y, w, h - 1);
      RowBytesLength(f, x, y + h - 1, w);
      assert Clamp0(w) * (h - 1) * 4 + Clamp0(w) * 4 == Clamp0(w) * h * 4;
    }
  }

  lemma {:induction false} RowBytesAt(f: Sampler, x: int, py: int, n: int, col: int, k: int)
    requires Quadruples(f)
    requires 0 <= col < n && 0 <= k < 4
    ensures |RowBytes(f, x, py, n)| == n * 4
    ensures RowBytes(f, x, py, n)[col * 4 + k] == f(x + col, py)[k]
    decreases n
  {
    RowBytesLength(f, x, py, n);
    RowBytesLength(f, x, py, n - 1);
    if col < n - 1 {
      RowBytesAt(f, x, py, n - 1, col, k);
    }
  }

  /** Where row `row` of a `w`-wide readback starts: `w * 4` bytes per row
      before it. */
  function RowStart(w: int, row: nat): (start: nat)
  {
    if row == 0 then 0 else RowStart(w, row - 1) + Clamp0(w) * 4
  }

  lemma {:induction false} RowStartIsProduct(w: int, row: nat)
    requires 0 <= w
    ensures RowStart(w, row) == row * w * 4
  {
    if row > 0 {
      RowStartIsProduct(w, row - 1);
      assert (row - 1) * w * 4 + w * 4 == row * w * 4;
    }
  }

  lemma {:induction false} RegionLengthRows(f: Sampler, x: int, y: int, w: int, h: nat)
    requires Quadruples(f)
    ensures |Region(f, x, y, w, h)| == RowStart(w, h)
  {
    if h > 0 {
      RegionLengthRows(f, x, y, w, h - 1);
      RowBytesLength(f, x, y + h - 1, w);
    }
  }

  /** `RegionAt` with the row offset kept as `RowStart`. */
  lemma {:induction false} RegionAtRow(f: Sampler, x: int, y: int, w: int, h: int, row: nat, col: int, k: int, i: int)
    requires Quadruples(f)
    requires row < h && 0 <= col < w && 0 <= k < 4
    requires i == RowStart(w, row) + col * 4 + k
    ensures i < |Region(f, x, y, w, h)|
    ensures Region(f, x, y, w, h)[i] == f(x + col, y + row)[k]
    decreases h
  {
    if row < h - 1 {
      RegionAtRow(f, x, y, w, h - 1, row, col, k, i);
      RegionKeepsPrefix(f, x, y, w, h, i);
    } else {
      RegionAtLastRow(f, x, y, w, h, row, col, k, i);
    }
  }

  /** The last row of a readback holds the samples of row `y + h - 1`. */
  lemma RegionAtLastRow(f: Sampler, x: int, y: int, w: int, h: int, row: nat, col: int, k: int, i: int)
    requires Quadruples(f)
    requires h == row + 1 && 0 <= col < w && 0 <= k < 4
    requires i == RowStart(w, row) + col * 4 + k
    ensures i < |Region(f, x, y, w, h)|
    ensures Region(f, x, y, w, h)[i] == f(x + col, y + row)[k]
  {
    RegionLengthRows(f, x, y, w, row);
    RowBytesLength(f, x, y + row, w);
    RowBytesAt(f, x, y + row, w, col, k);
    RegionEndsWithRow(f, x, y, w, h, row, col * 4 + k, i);
  }

  /** Readback is row-major: byte `i = (row * w + col) * 4 + k` is byte `k`
      of the sample at `(x + col, y + row)`. */
  lemma RegionAt(f: Sampler, x: int, y: int, w: int, h: int, row: int, col: int, k: int, i: int)
    requires Quadruples(f)
    requires 0 <= row < h && 0 <= col < w && 0 <= k < 4
    requires i == (row * w + col) * 4 + k
    ensures i < |Region(f, x, y, w, h)|
    ensures Region(f, x, y, w, h)[i] == f(x + col, y + row)[k]
  {
    RowStartIsProduct(w, row);
    RegionAtRow(f, x, y, w, h, row, col, k, i);
  }

  /** A row one sample longer is the shorter one followed by that sample. */
  lemma RowBytesNext(f: Sampler, x: int, py: int, col: nat)
    ensures RowBytes(f, x, py, col + 1) == RowBytes(f, x, py, col) + f(x + col, py)
  {
    assert x + (col + 1) - 1 == x + col;
  }

  /** A readback one row taller is the shorter one followed by that row. */
  lemma RegionNextRow(f: Sampler, x: int, y: int, w: int, row: nat)
    ensures Region(f, x, y, w, row + 1) == Region(f, x, y, w, row) + RowBytes(f, x, y + row, w)
  {
    assert y + (row + 1) - 1 == y + row;
  }

  lemma RegionKeepsPrefix(f: Sampler, x: int, y: int, w: int, h: int, i: int)
    requires h > 0
    requires 0 <= i < |Region(f, x, y, w, h - 1)|
    ensures i < |Region(f, x, y, w, h)|
    ensures Region(f, x, y, w, h)[i] == Region(f, x, y, w, h - 1)[i]
  {
  }

  lemma RegionEndsWithRow(f: Sampler, x: int, y: int, w: int, h: int, row: nat, j: int, i: int)
    requires h == row + 1
    requires 0 <= j < |RowBytes(f, x, y + row, w)| && i == |Region(f, x, y, w, row)| + j
    ensures i < |Region(f, x, y, w, h)|
    ensures Region(f, x, y, w, h)[i] == RowBytes(f, x, y + row, w)[j]
  {
    assert h - 1 == row && y + h - 1 == y + row;
    var prefix := Region(f, x, y, w, h - 1);
    var last := RowBytes(f, x, y + h - 1, w);
    assert Region(f, x, y, w, h) == prefix + last;
    assert prefix == Region(f, x, y, w, row);
    assert last == RowBytes(f, x, y + row, w);
    assert (prefix + last)[i] == last[j];
  }

  /** A sampler that yields transparent black everywhere reads back as zero
      bytes only. */
  lemma {:induction false} TransparentRow(f: Sampler, x: int, py: int, n: int)
    requires forall px, qy :: f(px, qy) == Transparent
    ensures forall i :: 0 <= i < |RowBytes(f, x, py, n)| ==> RowBytes(f, x, py, n)[i] == 0
    decreases n
  {
    if n > 0 {
      TransparentRow(f, x, py, n - 1);
      assert f(x + n - 1, py) == Transparent;
    }
  }

  lemma {:induction false} TransparentRegion(f: Sampler, x: int, y: int, w: int, h: int)
    requires forall px, qy :: f(px, qy) == Transparent
    ensures forall i :: 0 <= i < |Region(f, x, y, w, h)| ==> Region(f, x, y, w, h)[i] == 0
    decreases h
  {
    if h > 0 {
      TransparentRegion(f, x, y, w, h - 1);
      TransparentRow(f, x, y + h - 1, w);
    }
  }

  // ---------------------------------------------------------------------
  // Per-sample properties

  /** A sample outside `[0, width) x [0, height)` reads as transparent black. */
  lemma OutsideIsTransparent(p: Pixmap, px: int, py: int)
    requires p.Valid()
    requires !(0 <= px < p.width && 0 <= py < p.height)
    ensures StraightPixel(p, px, py) == [0, 0, 0, 0]
  {
  }

  /** A stored alpha of 0 reads as transparent black, whatever the stored
      colour bytes. */
  lemma ZeroAlphaIsTransparent(p: Pixmap, px: int, py: int)
    requires p.Valid() && 0 <= px < p.width && 0 <= py < p.height
    requires StoredPixel(p, px, py)[3] == 0
    ensures StraightPixel(p, px, py) == [0, 0, 0, 0]
  {
  }

  /** A nonzero stored alpha is reported unchanged; at alpha 255 the colour
      bytes come back exactly as stored. */
  lemma AlphaIsKept(p: Pixmap, px: int, py: int)
    requires p.Valid() && 0 <= px < p.width && 0 <= py < p.height
    requires StoredPixel(p, px, py)[3] > 0
    ensures StraightPixel(p, px, py)[3] == StoredPixel(p, px, py)[3]
    ensures StoredPixel(p, px, py)[3] == 255 ==> StraightPixel(p, px, py) == StoredPixel(p, px, py)
  {
    var s := StoredPixel(p, px, py);
    if s[3] == 255 {
      OpaqueIsExact(s[0]);
      OpaqueIsExact(s[1]);
      OpaqueIsExact(s[2]);
    }
  }

  /** Dividing by an alpha of 255 gives the channel back. */
  lemma OpaqueIsExact(c: u8)
    ensures Unpremultiply(c, 255) == c
  {
    var q := (2 * 255 * c as int + 255) / (2 * 255);
    assert q * 510 <= 510 * c as int + 255 < q * 510 + 510;
  }

  /** Every byte of the buffer is 0, as in a freshly created pixmap. */
  predicate Blank(p: Pixmap) {
    forall i :: 0 <= i < |p.data| ==> p.data[i] == 0
  }

  lemma BlankPixel(p: Pixmap, px: int, py: int)
    requires p.Valid() && Blank(p)
    ensures StraightPixel(p, px, py) == Transparent
  {
    if 0 <= px < p.width && 0 <= py < p.height {
      OffsetInBounds(p, px, py);
      var o := (py * p.width + px) * 4;
      assert StoredPixel(p, px, py)[3] == p.data[o + 3];
    }
  }

  /** A freshly created context reads back as transparent black everywhere. */
  lemma NewContextReadsTransparent(width: nat, height: nat, x: int, y: int, w: int, h: int)
    requires 0 < width && width * 4 <= I32_MAX && 0 < height <= U32_MAX
    ensures var p := NewContext(width, height).pixmap;
      var r := Region(Straight(p), x, y, w, h);
      |r| == Clamp0(w) * Clamp0(h) * 4 && forall i :: 0 <= i < |r| ==> r[i] == 0
  {
    var p := NewContext(width, height).pixmap;
    var f := Straight(p);
    RegionLength(f, x, y, w, h);
    forall px, py ensures f(px, py) == Transparent {
      BlankPixel(p, px, py);
    }
    TransparentRegion(f, x, y, w, h);
  }
}
