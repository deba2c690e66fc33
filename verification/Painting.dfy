/** A run of Paint calls on a window's flat buffer refines painting rectangles into
    a two-dimensional picture. */
module Painting {
  import opened Bytes
  import opened Pixels

  type Picture = seq<seq<Pixel>>

  datatype Draw = Draw(x: int, y: int, width: int, height: int, pixels: seq<byte>, rowstride: int, format: string)

  // ---- the picture ---------------------------------------------------------

  /** What is wrong with the pixels of a draw, for a rectangle of that size. */
  function SourceError(d: Draw, width: nat, height: nat): Option<PaintError> {
    if ConverterFor(d.format).None? then Some(UnknownFormat)
    else if d.rowstride < width * SourceBytes(ConverterFor(d.format).value) then Some(SmallRowstride)
    else if |d.pixels| < d.rowstride * height then Some(ShortSource)
    else None
  }

  lemma SourceInside(d: Draw, width: nat, height: nat, i: nat, j: nat)
    requires SourceError(d, width, height).None? && i < width && j < height
    ensures var b := SourceBytes(ConverterFor(d.format).value);
      d.rowstride >= 0 && Offset(j, d.rowstride) + Offset(i, b) + b <= |d.pixels|
  {
    var b := SourceBytes(ConverterFor(d.format).value);
    OffsetsApart(i, width, b);
    RowFitsSource(j, height, d.rowstride, Offset(width, b));
  }

  /** Pixel (i, j) of a draw, in the layout of the window. */
  function DrawPixel(d: Draw, width: nat, height: nat, i: nat, j: nat): Pixel
    requires SourceError(d, width, height).None? && i < width && j < height
  {
    SourceInside(d, width, height, i, j);
    var b := SourceBytes(ConverterFor(d.format).value);
    var at := Offset(j, d.rowstride) + Offset(i, b);
    Converted(ConverterFor(d.format).value, d.pixels[at..at + b])
  }

  /** The size of the part of a draw that lies in a w by h window. */
  function Clipped(d: Draw, w: nat, h: nat): Result<(nat, nat), PaintError> {
    ClipDamage(d.x, d.y, d.width, d.height, w, h)
  }

  predicate Sized(pic: Picture, w: nat, h: nat) {
    |pic| == h && forall y :: 0 <= y < h ==> |pic[y]| == w
  }

  /** Pixel (px, py) once the clipped rectangle of d has been painted over pic. */
  function Painted(pic: Picture, w: nat, h: nat, d: Draw, cw: nat, ch: nat, px: nat, py: nat): Pixel
    requires Sized(pic, w, h) && px < w && py < h && SourceError(d, cw, ch).None?
  {
    if d.x <= px < d.x + cw && d.y <= py < d.y + ch
    then DrawPixel(d, cw, ch, px - d.x, py - d.y)
    else pic[py][px]
  }

  function PaintRectangle(pic: Picture, w: nat, h: nat, d: Draw, cw: nat, ch: nat): Picture
    requires Sized(pic, w, h) && SourceError(d, cw, ch).None?
  {
    seq(h, py requires 0 <= py < h => seq(w, px requires 0 <= px < w => Painted(pic, w, h, d, cw, ch, px, py)))
  }

  /** What painting d makes of a picture, and the error it reports. */
  function PaintPicture(pic: Picture, w: nat, h: nat, d: Draw): (Picture, Option<PaintError>)
    requires Sized(pic, w, h)
  {
    var clip := Clipped(d, w, h);
    if clip.Err? then (pic, Some(clip.error))
    else if clip.value.0 == 0 || clip.value.1 == 0 then (pic, None)
    else
      var e := SourceError(d, clip.value.0, clip.value.1);
      if e.Some? then (pic, e)
      else (PaintRectangle(pic, w, h, d, clip.value.0, clip.value.1), None)
  }

  lemma PaintKeepsSize(pic: Picture, w: nat, h: nat, d: Draw)
    requires Sized(pic, w, h)
    ensures Sized(PaintPicture(pic, w, h, d).0, w, h)
  {
  }

  /** Which byte of a window's pixel a letter of a format's name goes to. */
  function ChannelOf(letter: char): (i: nat)
    ensures i < 3
  {
    if letter == 'B' then 0 else if letter == 'G' then 1 else 2
  }

  lemma DrawPixelChannels(d: Draw, width: nat, height: nat, i: nat, j: nat, k: nat)
    requires SourceError(d, width, height).None? && i < width && j < height && k < 3
    ensures d.format in ["BGRX", "BGRA", "RGBX", "RGBA", "BGR", "RGB"]
    ensures var n, p := |d.format|, DrawPixel(d, width, height, i, j);
      var at := j * d.rowstride + i * n;
      && 0 <= at && at + n <= |d.pixels|
      && p[ChannelOf(d.format[k])] == d.pixels[at + k] && p[3] == if n == 4 then d.pixels[at + 3] else 255
  {
    hide Converted, ConverterFor;
    FormatsNamed(d.format);
    SourceInside(d, width, height, i, j);
    var n := |d.format|;
    var at := Offset(j, d.rowstride) + Offset(i, n);
    ChannelOrder(d.format, d.pixels[at..at + n], k);
  }

  /** What a successful paint leaves at every pixel: in the rectangle, the source pixel
      that lies there, its bytes where the letters of the format's name send them and 255
      for a missing fourth; elsewhere, what was there. */
  lemma PaintedChannels(pic: Picture, w: nat, h: nat, d: Draw, px: nat, py: nat, k: nat)
    requires Sized(pic, w, h) && PaintPicture(pic, w, h, d).1.None? && px < w && py < h && k < 3
    ensures var p := PaintPicture(pic, w, h, d).0[py][px];
      if d.x <= px < d.x + d.width && d.y <= py < d.y + d.height then
        var n := |d.format|;
        var at := (py - d.y) * d.rowstride + (px - d.x) * n;
        && d.format in ["BGRX", "BGRA", "RGBX", "RGBA", "BGR", "RGB"]
        && 0 <= at && at + n <= |d.pixels|
        && p[ChannelOf(d.format[k])] == d.pixels[at + k] && p[3] == if n == 4 then d.pixels[at + 3] else 255
      else p == pic[py][px]
  {
    hide Converted, ConverterFor, DrawPixel, SourceError;
    var clip := Clipped(d, w, h).value;
    if d.x <= px < d.x + d.width && d.y <= py < d.y + d.height {
      ClipExact(d.x, d.y, d.width, d.height, w, h, px, py);
      DrawPixelChannels(d, clip.0, clip.1, px - d.x, py - d.y, k);
    }
  }

  // ---- the buffer ----------------------------------------------------------

  /** The bytes of a w by h window, row by row. */
  function BufferSize(w: nat, h: nat): nat {
    Offset(h, 4 * w)
  }

  lemma PixelInside(w: nat, h: nat, x: nat, y: nat)
    requires x < w && y < h
    ensures Offset(y, 4 * w) + 4 * x + 4 <= Offset(y, 4 * w) + 4 * w <= BufferSize(w, h)
  {
    OffsetsApart(y, h, 4 * w);
  }

  function PixelAt(buf: seq<byte>, w: nat, h: nat, x: nat, y: nat): Pixel
    requires |buf| == BufferSize(w, h) && x < w && y < h
  {
    PixelInside(w, h, x, y);
    buf[Offset(y, 4 * w) + 4 * x..Offset(y, 4 * w) + 4 * x + 4]
  }

  /** The picture a buffer stands for. */
  function PictureOf(buf: seq<byte>, w: nat, h: nat): (pic: Picture)
    requires |buf| == BufferSize(w, h)
    ensures Sized(pic, w, h)
  {
    seq(h, y requires 0 <= y < h => seq(w, x requires 0 <= x < w => PixelAt(buf, w, h, x, y)))
  }

  lemma {:induction false} OffsetSum(a: nat, b: nat, stride: nat)
    ensures Offset(a + b, stride) == Offset(a, stride) + Offset(b, stride)
  {
    hide Offset;
    if b == 0 {
      OffsetZero(stride);
    } else {
      OffsetSum(a, b - 1, stride);
      OffsetNext(a + b - 1, stride);
      OffsetNext(b - 1, stride);
    }
  }

  /** A clipped rectangle ends inside the buffer. */
  lemma RectangleInside(w: nat, h: nat, x: nat, y: nat, cw: nat, ch: nat)
    requires x + cw <= w && y + ch <= h && ch > 0
    ensures Offset(y, 4 * w) + 4 * x + 4 * w * (ch - 1) + 4 * cw <= BufferSize(w, h)
  {
    OffsetSum(y, ch - 1, 4 * w);
    assert Offset(ch - 1, 4 * w) == 4 * w * (ch - 1);
    OffsetsApart(y + ch - 1, h, 4 * w);
  }

  /** Pixel i of converted row j, in place, is the conversion of source pixel (i, j). */
  lemma ConvertedPixel(a: seq<byte>, b: seq<byte>, base: nat, dstStride: nat,
                       src: seq<byte>, srcStride: nat, width: nat, rows: nat, kind: Kind, i: nat, j: nat)
    requires RowsConverted(a, b, base, dstStride, src, srcStride, width, rows, kind) && i < width && j < rows
    ensures base + Offset(j, dstStride) + 4 * i + 4 <= |a|
    ensures var n := SourceBytes(kind);
      && Offset(j, srcStride) + Offset(i, n) + n <= |src|
      && a[base + Offset(j, dstStride) + 4 * i..base + Offset(j, dstStride) + 4 * i + 4]
         == Converted(kind, src[Offset(j, srcStride) + Offset(i, n)..Offset(j, srcStride) + Offset(i, n) + n])
  {
    hide Offset, RowBytes, RowsConverted, InRows, Converted, SourceRow, SourcePixel;
    ConvertedRow(a, b, base, dstStride, src, srcStride, width, rows, kind, j);
    SourceRowPixel(src, srcStride, j, width, i, kind);
    RowPixel(kind, SourceRow(src, srcStride, j, Offset(width, SourceBytes(kind))), width, i);
    SliceOfSlice(a, base + Offset(j, dstStride), 4 * width, 4 * i, 4);
  }

  /** Where a painted pixel's bytes come from. */
  lemma PaintedPixel(a: seq<byte>, b: seq<byte>, w: nat, h: nat, d: Draw, cw: nat, ch: nat, i: nat, j: nat)
    requires |a| == BufferSize(w, h) && d.x >= 0 && d.y >= 0
    requires d.x + cw <= w && d.y + ch <= h && i < cw && j < ch
    requires SourceError(d, cw, ch).None?
    requires RowsConverted(a, b, Offset(d.y, 4 * w) + 4 * d.x, 4 * w, d.pixels, d.rowstride, cw, ch, ConverterFor(d.format).value)
    ensures PixelAt(a, w, h, d.x + i, d.y + j) == DrawPixel(d, cw, ch, i, j)
  {
    hide Offset, RowsConverted, InRows, Converted, BufferSize, ConverterFor;
    OffsetSum(d.y, j, 4 * w);
    PixelInside(w, h, d.x + i, d.y + j);
    ConvertedPixel(a, b, Offset(d.y, 4 * w) + 4 * d.x, 4 * w, d.pixels, d.rowstride, cw, ch, ConverterFor(d.format).value, i, j);
    SourceInside(d, cw, ch, i, j);
  }

  lemma ConvertedRow(a: seq<byte>, b: seq<byte>, base: nat, dstStride: nat,
                     src: seq<byte>, srcStride: nat, width: nat, rows: nat, kind: Kind, row: nat)
    requires RowsConverted(a, b, base, dstStride, src, srcStride, width, rows, kind) && row < rows
    ensures Offset(row, srcStride) + Offset(width, SourceBytes(kind)) <= |src|
    ensures base + Offset(row, dstStride) + 4 * width <= |a|
    ensures a[base + Offset(row, dstStride)..base + Offset(row, dstStride) + 4 * width]
         == RowBytes(kind, SourceRow(src, srcStride, row, Offset(width, SourceBytes(kind))), width)
  {
    hide Offset, RowBytes, InRows;
  }

  lemma SourceRowPixel(src: seq<byte>, stride: nat, row: nat, width: nat, i: nat, kind: Kind)
    requires i < width && Offset(row, stride) + Offset(width, SourceBytes(kind)) <= |src|
    ensures Offset(i, SourceBytes(kind)) + SourceBytes(kind) <= Offset(width, SourceBytes(kind))
    ensures var b := SourceBytes(kind);
      SourcePixel(kind, SourceRow(src, stride, row, Offset(width, b)), i)
      == src[Offset(row, stride) + Offset(i, b)..Offset(row, stride) + Offset(i, b) + b]
  {
    hide Offset;
    var b := SourceBytes(kind);
    OffsetsApart(i, width, b);
    SliceOfSlice(src, Offset(row, stride), Offset(width, b), Offset(i, b), b);
  }

  /** No byte of a pixel outside the rectangle lies in one of its rows. */
  lemma OutsideRows(w: nat, h: nat, x: nat, y: nat, cw: nat, ch: nat, px: nat, py: nat, k: nat)
    requires x + cw <= w && y + ch <= h && px < w && py < h
    requires !(x <= px < x + cw && y <= py < y + ch)
    requires Offset(py, 4 * w) + 4 * px <= k < Offset(py, 4 * w) + 4 * px + 4
    ensures !InRows(k, Offset(y, 4 * w) + 4 * x, 4 * w, cw, ch)
  {
    hide Offset;
    var base := Offset(y, 4 * w) + 4 * x;
    forall row: nat | row < ch ensures !(base + Offset(row, 4 * w) <= k < base + Offset(row, 4 * w) + 4 * cw) {
      OffsetSum(y, row, 4 * w);
      if y + row < py {
        OffsetsApart(y + row, py, 4 * w);
      } else if py < y + row {
        OffsetsApart(py, y + row, 4 * w);
      }
    }
  }

  lemma UnpaintedPixel(a: seq<byte>, b: seq<byte>, w: nat, h: nat, d: Draw, cw: nat, ch: nat, px: nat, py: nat)
    requires |a| == |b| == BufferSize(w, h) && d.x >= 0 && d.y >= 0
    requires d.x + cw <= w && d.y + ch <= h && px < w && py < h
    requires !(d.x <= px < d.x + cw && d.y <= py < d.y + ch)
    requires SourceError(d, cw, ch).None?
    requires RowsConverted(a, b, Offset(d.y, 4 * w) + 4 * d.x, 4 * w, d.pixels, d.rowstride, cw, ch, ConverterFor(d.format).value)
    ensures PixelAt(a, w, h, px, py) == PixelAt(b, w, h, px, py)
  {
    hide Offset, RowBytes, InRows;
    PixelInside(w, h, px, py);
    var at := Offset(py, 4 * w) + 4 * px;
    forall k | at <= k < at + 4 ensures a[k] == b[k] {
      OutsideRows(w, h, d.x, d.y, cw, ch, px, py, k);
    }
  }

  /** Converted rows at a rectangle's place are the rectangle painted. */
  lemma RowsArePicture(a: seq<byte>, b: seq<byte>, w: nat, h: nat, d: Draw, cw: nat, ch: nat)
    requires |a| == |b| == BufferSize(w, h)
    requires Clipped(d, w, h) == Ok((cw, ch)) && cw > 0 && ch > 0 && SourceError(d, cw, ch).None?
    requires RowsConverted(a, b, Offset(d.y, 4 * w) + 4 * d.x, 4 * w, d.pixels, d.rowstride, cw, ch, ConverterFor(d.format).value)
    ensures PaintPicture(PictureOf(b, w, h), w, h, d) == (PictureOf(a, w, h), None)
  {
    hide RowsConverted, Offset, SourceError, DrawPixel, PixelAt, BufferSize, InRows, RowBytes;
    var pic := PictureOf(b, w, h);
    forall py, px | 0 <= py < h && 0 <= px < w
      ensures PixelAt(a, w, h, px, py) == Painted(pic, w, h, d, cw, ch, px, py)
    {
      assert pic[py][px] == PixelAt(b, w, h, px, py);
      if d.x <= px < d.x + cw && d.y <= py < d.y + ch {
        PaintedPixel(a, b, w, h, d, cw, ch, px - d.x, py - d.y);
      } else {
        UnpaintedPixel(a, b, w, h, d, cw, ch, px, py);
      }
    }
    var p, q := PictureOf(a, w, h), PaintRectangle(pic, w, h, d, cw, ch);
    forall py | 0 <= py < h ensures p[py] == q[py] {
      forall px | 0 <= px < w ensures p[py][px] == q[py][px] {
        assert p[py][px] == PixelAt(a, w, h, px, py);
        assert q[py][px] == Painted(pic, w, h, d, cw, ch, px, py);
      }
    }
    assert p == q;
  }

  // ---- a window that paints into shared memory -------------------------------

  class Window {
    var memory: array?<byte>
    var bufWidth: nat
    var bufHeight: nat

    constructor ()
      ensures Valid() && memory == null
    {
      memory := null;
      bufWidth, bufHeight := 0, 0;
    }

    /** The memory is exactly as large as its rows. */
    ghost predicate Valid()
      reads this, memory
    {
      memory != null ==> memory.Length == BufferSize(bufWidth, bufHeight)
    }

    ghost function Contents(): Picture
      requires Valid() && memory != null
      reads this, memory
    {
      PictureOf(memory[..], bufWidth, bufHeight)
    }

    /** Replaces the buffer by a zeroed one. */
    method NewBuffer(width: nat, height: nat)
      modifies this
      ensures Valid() && memory != null && fresh(memory)
      ensures bufWidth == width && bufHeight == height
      ensures forall k :: 0 <= k < memory.Length ==> memory[k] == 0
    {
      memory := new byte[BufferSize(width, height)](_ => 0);
      bufWidth, bufHeight := width, height;
    }

    method Paint(d: Draw) returns (err: Option<PaintError>)
      requires Valid()
      modifies memory
      ensures Valid()
      ensures memory == null ==> err == Some(NoBuffer)
      ensures memory != null ==> (Contents(), err) == PaintPicture(old(Contents()), bufWidth, bufHeight, d)
    {
      hide ConverterFor, SourceBytes, Sized, PaintRectangle, RowsConverted, RowsFit, Written, Offset, BufferSize, PixelAt, PictureOf, PaintPicture, SourceError, ConvertError;
      if memory == null {
        return Some(NoBuffer);
      }
      PaintCases(Contents(), bufWidth, bufHeight, d);
      var clip := ClipDamage(d.x, d.y, d.width, d.height, bufWidth, bufHeight);
      if clip.Err? {
        return Some(clip.error);
      }
      var (width, height) := clip.value;
      if width == 0 || height == 0 {
        return None;
      }
      var stride := bufWidth * BYTES_PER_PIXEL;
      var base := Offset(d.y, stride) + d.x * BYTES_PER_PIXEL;
      RectangleInside(bufWidth, bufHeight, d.x, d.y, width, height);
      PaintErrorIsSourceError(d, memory.Length - base, bufWidth, width, height);
      err := Convert(memory, base, stride, d.pixels, d.rowstride, width, height, d.format);
      if err.None? {
        RowsArePicture(memory[..], old(memory[..]), bufWidth, bufHeight, d, width, height);
      }
    }
  }

  /** When painting leaves the picture as it is. */
  lemma PaintCases(pic: Picture, w: nat, h: nat, d: Draw)
    requires Sized(pic, w, h)
    ensures Clipped(d, w, h).Err? ==> PaintPicture(pic, w, h, d) == (pic, Some(Clipped(d, w, h).error))
    ensures Clipped(d, w, h).Ok? ==>
      var (cw, ch) := Clipped(d, w, h).value;
      && (cw == 0 || ch == 0 ==> PaintPicture(pic, w, h, d) == (pic, None))
      && (cw > 0 && ch > 0 && SourceError(d, cw, ch).Some? ==> PaintPicture(pic, w, h, d) == (pic, SourceError(d, cw, ch)))
  {
    hide SourceError;
  }

  /** The buffer is never the reason why painting fails. */
  lemma PaintErrorIsSourceError(d: Draw, room: int, w: nat, cw: nat, ch: nat)
    requires ch > 0 && room >= 4 * w * (ch - 1) + 4 * cw
    ensures ConvertError(room, w * BYTES_PER_PIXEL, |d.pixels|, d.rowstride, cw, ch, d.format) == SourceError(d, cw, ch)
  {
    assert w * BYTES_PER_PIXEL * (ch - 1) == 4 * w * (ch - 1);
  }

  // ---- runs ----------------------------------------------------------------

  /** The picture after a run of draws. */
  function PaintAllPicture(pic: Picture, w: nat, h: nat, ds: seq<Draw>): (r: Picture)
    requires Sized(pic, w, h)
    ensures Sized(r, w, h)
  {
    if ds == [] then pic
    else
      var before := PaintAllPicture(pic, w, h, ds[..|ds| - 1]);
      PaintKeepsSize(before, w, h, ds[|ds| - 1]);
      PaintPicture(before, w, h, ds[|ds| - 1]).0
  }

  /** A run of draws, good and bad, leaves in the buffer the picture that painting
      them one after another gives. */
  method PaintAll(window: Window, ds: seq<Draw>)
    requires window.Valid() && window.memory != null
    modifies window.memory
    ensures window.Valid()
    ensures window.Contents() == PaintAllPicture(old(window.Contents()), window.bufWidth, window.bufHeight, ds)
  {
    for i := 0 to |ds|
      invariant window.Valid()
      invariant window.Contents() == PaintAllPicture(old(window.Contents()), window.bufWidth, window.bufHeight, ds[..i])
    {
      var _ := window.Paint(ds[i]);
      assert ds[..i + 1][..i] == ds[..i];
    }
    assert ds[..|ds|] == ds;
  }
}
