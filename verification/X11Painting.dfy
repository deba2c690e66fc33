/** Painting over X11: the damage is converted into a packed scratch buffer and
    uploaded in bands of rows, each small enough for one PutImage request. The
    pixmap those requests leave behind is the picture the Wayland window paints,
    as far as 16-bit coordinates reach. */
module X11Painting {
  import opened Bytes
  import opened Pixels
  import opened Painting

  type uint16 = n: int | 0 <= n < 0x1_0000
  type int16 = n: int | -0x8000 <= n < 0x8000

  const MAX_INT16: int := 0x7fff

  /** Go's int16(n). */
  function ToInt16(n: uint16): int16 {
    if n > MAX_INT16 then n - 0x1_0000 else n
  }

  // ---- the requests ----------------------------------------------------------

  /** An upload of packed pixels in the window's layout. */
  datatype PutImage = PutImage(width: uint16, rows: uint16, x: int16, y: int16, data: seq<byte>)

  /** The data is exactly as long as its rows, and every row has pixels. */
  predicate Packed(r: PutImage) {
    r.width > 0 && |r.data| == Offset(r.rows, 4 * r.width)
  }

  type Upload = r: PutImage | Packed(r) witness PutImage(1, 0, 0, 0, [])

  /** Pixel (i, j) of packed data. */
  function PackedPixel(data: seq<byte>, width: nat, height: nat, i: nat, j: nat): Pixel
    requires |data| == BufferSize(width, height) && i < width && j < height
  {
    PixelAt(data, width, height, i, j)
  }

  /** A pixel of the pixmap once the X server has drawn a request; what falls
      outside the pixmap is dropped. */
  function DrawnPixel(pic: Picture, w: nat, h: nat, r: Upload, px: nat, py: nat): Pixel
    requires Sized(pic, w, h) && px < w && py < h
  {
    if r.x <= px < r.x + r.width && r.y <= py < r.y + r.rows
    then PackedPixel(r.data, r.width, r.rows, px - r.x, py - r.y)
    else pic[py][px]
  }

  function Drawn(pic: Picture, w: nat, h: nat, r: Upload): (q: Picture)
    requires Sized(pic, w, h)
    ensures Sized(q, w, h)
  {
    seq(h, py requires 0 <= py < h => seq(w, px requires 0 <= px < w => DrawnPixel(pic, w, h, r, px, py)))
  }

  // ---- the bands -------------------------------------------------------------

  function RowsPerRequest(maxImageBytes: nat, width: nat): (n: nat)
    requires width > 0
    ensures n >= 1
  {
    Max(1, maxImageBytes / (width * BYTES_PER_PIXEL))
  }

  /** One band: rows [row, row + rows) of a rectangle at (x, y). */
  function Band(x: nat, y: nat, width: nat, height: nat, data: seq<byte>, row: nat, rows: nat): (r: Upload)
    requires x + width < 0x1_0000 && y + height < 0x1_0000 && width > 0
    requires |data| == BufferSize(width, height) && row + rows <= height
  {
    OffsetSum(row, rows, 4 * width);
    OffsetSum(row + rows, height - row - rows, 4 * width);
    PutImage(width, rows, ToInt16(x), ToInt16(y + row), data[Offset(row, 4 * width)..Offset(row + rows, 4 * width)])
  }

  /** The band that row j belongs to starts here. */
  function BandStart(j: nat, n: nat): (row: nat)
    requires n >= 1
    ensures row <= j < row + n
  {
    if j < n then 0 else n + BandStart(j - n, n)
  }

  lemma {:induction false} BandStartIs(j: nat, n: nat, row: nat)
    requires n >= 1 && BandStart(row, n) == row && row <= j < row + n
    ensures BandStart(j, n) == row
  {
    if row < n {
    } else {
      BandStartIs(j - n, n, row - n);
    }
  }

  /** A pixel of the rectangle lands where it belongs: the origin of its band
      survives the conversion to 16 bits. */
  predicate Placed(x: nat, y: nat, n: nat, py: nat)
    requires n >= 1 && y <= py
  {
    x <= MAX_INT16 && y + BandStart(py - y, n) <= MAX_INT16
  }

  /** A pixel after the first `row` rows of a rectangle at (x, y) were uploaded in
      bands of n rows. */
  function BandedPixel(pic: Picture, w: nat, h: nat, x: nat, y: nat, cw: nat, ch: nat, data: seq<byte>, n: nat, row: nat, px: nat, py: nat): Pixel
    requires Sized(pic, w, h) && px < w && py < h && n >= 1 && row <= ch
    requires |data| == BufferSize(cw, ch)
  {
    if x <= px < x + cw && y <= py < y + row && Placed(x, y, n, py)
    then PackedPixel(data, cw, ch, px - x, py - y)
    else pic[py][px]
  }

  function Banded(pic: Picture, w: nat, h: nat, x: nat, y: nat, cw: nat, ch: nat, data: seq<byte>, n: nat, row: nat): (q: Picture)
    requires Sized(pic, w, h) && n >= 1 && row <= ch
    requires |data| == BufferSize(cw, ch)
    ensures Sized(q, w, h)
  {
    seq(h, py requires 0 <= py < h => seq(w, px requires 0 <= px < w => BandedPixel(pic, w, h, x, y, cw, ch, data, n, row, px, py)))
  }

  /** A pixel of a band is the same pixel of the whole rectangle. */
  lemma BandPixel(x: nat, y: nat, width: nat, height: nat, data: seq<byte>, row: nat, rows: nat, i: nat, j: nat)
    requires x + width < 0x1_0000 && y + height < 0x1_0000 && width > 0
    requires |data| == BufferSize(width, height) && row + rows <= height
    requires i < width && j < rows
    ensures PackedPixel(Band(x, y, width, height, data, row, rows).data, width, rows, i, j)
         == PackedPixel(data, width, height, i, row + j)
  {
    hide Offset;
    OffsetSum(row, j, 4 * width);
    OffsetSum(row, rows, 4 * width);
    OffsetSum(row + rows, height - row - rows, 4 * width);
    PixelInside(width, rows, i, j);
    SliceOfSlice(data, Offset(row, 4 * width), Offset(rows, 4 * width), Offset(j, 4 * width) + 4 * i, 4);
  }

  /** Drawing the next band extends the uploaded part by its rows. */
  lemma BandDrawn(pic: Picture, w: nat, h: nat, x: nat, y: nat, cw: nat, ch: nat, data: seq<byte>, n: nat, row: nat, rows: nat)
    requires Sized(pic, w, h) && w < 0x1_0000 && h < 0x1_0000
    requires x + cw <= w && y + ch <= h && cw > 0 && n >= 1
    requires |data| == BufferSize(cw, ch)
    requires BandStart(row, n) == row && row < ch && rows == Min(n, ch - row)
    ensures Drawn(Banded(pic, w, h, x, y, cw, ch, data, n, row), w, h, Band(x, y, cw, ch, data, row, rows))
         == Banded(pic, w, h, x, y, cw, ch, data, n, row + rows)
  {
    hide BufferSize, PackedPixel, BandStart, Offset;
    var before := Banded(pic, w, h, x, y, cw, ch, data, n, row);
    var r := Band(x, y, cw, ch, data, row, rows);
    var a, b := Drawn(before, w, h, r), Banded(pic, w, h, x, y, cw, ch, data, n, row + rows);
    forall py | 0 <= py < h ensures a[py] == b[py] {
      forall px | 0 <= px < w ensures a[py][px] == b[py][px] {
        assert a[py][px] == DrawnPixel(before, w, h, r, px, py);
        assert b[py][px] == BandedPixel(pic, w, h, x, y, cw, ch, data, n, row + rows, px, py);
        assert before[py][px] == BandedPixel(pic, w, h, x, y, cw, ch, data, n, row, px, py);
        if x <= px < x + cw && y + row <= py < y + row + rows {
          BandStartIs(py - y, n, row);
          BandPixel(x, y, cw, ch, data, row, rows, px - x, py - y - row);
        }
      }
    }
  }

  /** Every band fits into a request if and only if a single row does. */
  lemma BandFits(maxImageBytes: nat, x: nat, y: nat, width: nat, height: nat, data: seq<byte>, row: nat)
    requires x + width < 0x1_0000 && y + height < 0x1_0000 && width > 0
    requires |data| == BufferSize(width, height) && row < height
    ensures var n := RowsPerRequest(maxImageBytes, width);
      |Band(x, y, width, height, data, row, Min(n, height - row)).data| <= maxImageBytes <==> 4 * width <= maxImageBytes
  {
    var n := RowsPerRequest(maxImageBytes, width);
    var rows := Min(n, height - row);
    var stride := 4 * width;
    if stride <= maxImageBytes {
      assert n == maxImageBytes / stride;
      assert n * stride <= maxImageBytes;
      assert rows * stride <= n * stride;
    } else {
      assert maxImageBytes / stride == 0;
      assert rows == 1;
    }
  }

  /** Each row of a rectangle is in exactly one band. */
  lemma BandsTile(height: nat, n: nat, j: nat, row: nat)
    requires n >= 1 && j < height && row < height && BandStart(row, n) == row
    ensures row <= j < row + Min(n, height - row) <==> row == BandStart(j, n)
  {
    if row <= j < row + n {
      BandStartIs(j, n, row);
    }
  }

  /** The requests for the rows of a rectangle from `row` on. */
  function Bands(x: nat, y: nat, width: nat, height: nat, data: seq<byte>, n: nat, row: nat): (rs: seq<Upload>)
    requires x + width < 0x1_0000 && y + height < 0x1_0000 && width > 0 && n >= 1
    requires |data| == BufferSize(width, height) && row <= height
    decreases height - row
  {
    if row == height then []
    else
      var rows := Min(n, height - row);
      [Band(x, y, width, height, data, row, rows)] + Bands(x, y, width, height, data, n, row + rows)
  }

  /** The pixmap after the X server has drawn requests in order. */
  function DrawnAll(pic: Picture, w: nat, h: nat, rs: seq<Upload>): (q: Picture)
    requires Sized(pic, w, h)
    ensures Sized(q, w, h)
    decreases |rs|
  {
    if rs == [] then pic else DrawnAll(Drawn(pic, w, h, rs[0]), w, h, rs[1..])
  }

  lemma {:induction false} BandsDrawn(pic: Picture, w: nat, h: nat, x: nat, y: nat, cw: nat, ch: nat, data: seq<byte>, n: nat, row: nat)
    requires Sized(pic, w, h) && w < 0x1_0000 && h < 0x1_0000
    requires x + cw <= w && y + ch <= h && cw > 0 && n >= 1
    requires |data| == BufferSize(cw, ch) && row <= ch
    requires row == ch || BandStart(row, n) == row
    ensures DrawnAll(Banded(pic, w, h, x, y, cw, ch, data, n, row), w, h, Bands(x, y, cw, ch, data, n, row))
         == Banded(pic, w, h, x, y, cw, ch, data, n, ch)
    decreases ch - row
  {
    hide Drawn, Banded, Band, BufferSize, Sized;
    if row == ch {
    } else {
      var rows := Min(n, ch - row);
      BandDrawn(pic, w, h, x, y, cw, ch, data, n, row, rows);
      BandsDrawn(pic, w, h, x, y, cw, ch, data, n, row + rows);
    }
  }

  // ---- the painted rectangle ---------------------------------------------------

  /** Painting a rectangle as X11 does it. */
  function X11Rectangle(pic: Picture, w: nat, h: nat, d: Draw, cw: nat, ch: nat, n: nat): (q: Picture)
    requires Sized(pic, w, h) && SourceError(d, cw, ch).None? && n >= 1 && d.x >= 0 && d.y >= 0
  {
    seq(h, py requires 0 <= py < h => seq(w, px requires 0 <= px < w =>
      if py >= d.y && Placed(d.x, d.y, n, py) then Painted(pic, w, h, d, cw, ch, px, py) else pic[py][px]))
  }

  lemma {:induction false} BandStartMonotone(i: nat, j: nat, n: nat)
    requires n >= 1 && i <= j
    ensures BandStart(i, n) <= BandStart(j, n)
  {
    if i < n {
    } else {
      BandStartMonotone(i - n, j - n, n);
    }
  }

  lemma AllPlaced(pic: Picture, w: nat, h: nat, d: Draw, cw: nat, ch: nat, n: nat)
    requires SourceError(d, cw, ch).None? && n >= 1 && d.x >= 0 && d.y >= 0 && ch > 0 && Sized(pic, w, h)
    requires d.x <= MAX_INT16 && d.y + BandStart(ch - 1, n) <= MAX_INT16
    ensures X11Rectangle(pic, w, h, d, cw, ch, n) == PaintRectangle(pic, w, h, d, cw, ch)
  {
    hide DrawPixel, SourceError, BandStart;
    var a, b := X11Rectangle(pic, w, h, d, cw, ch, n), PaintRectangle(pic, w, h, d, cw, ch);
    forall py | 0 <= py < h ensures a[py] == b[py] {
      forall px | 0 <= px < w ensures a[py][px] == b[py][px] {
        assert b[py][px] == Painted(pic, w, h, d, cw, ch, px, py);
        if d.y <= py < d.y + ch {
          BandStartMonotone(py - d.y, ch - 1, n);
        }
      }
    }
  }

  /** The last band decides whether a rectangle is painted as on Wayland, whatever
      was in the pixmap before. */
  lemma PlacedExactly(w: nat, h: nat, d: Draw, cw: nat, ch: nat, n: nat)
    requires SourceError(d, cw, ch).None? && n >= 1 && d.x >= 0 && d.y >= 0
    requires d.x + cw <= w && d.y + ch <= h && cw > 0 && ch > 0
    ensures (forall pic :: Sized(pic, w, h) ==> X11Rectangle(pic, w, h, d, cw, ch, n) == PaintRectangle(pic, w, h, d, cw, ch))
       <==> d.x <= MAX_INT16 && d.y + BandStart(ch - 1, n) <= MAX_INT16
  {
    hide DrawPixel, SourceError, BandStart;
    if d.x <= MAX_INT16 && d.y + BandStart(ch - 1, n) <= MAX_INT16 {
      forall pic | Sized(pic, w, h) ensures X11Rectangle(pic, w, h, d, cw, ch, n) == PaintRectangle(pic, w, h, d, cw, ch) {
        AllPlaced(pic, w, h, d, cw, ch, n);
      }
    } else {
      var was := DrawPixel(d, cw, ch, 0, ch - 1);
      var other: Pixel := [if was[0] == 0 then 1 else 0, 0, 0, 0];
      var pic := seq(h, py => seq(w, px => other));
      assert Sized(pic, w, h);
      assert X11Rectangle(pic, w, h, d, cw, ch, n)[d.y + ch - 1][d.x] == other;
      assert PaintRectangle(pic, w, h, d, cw, ch)[d.y + ch - 1][d.x] == was;
    }
  }

  /** One pixel in column 32768 of a window 32769 wide, with a server that grants such a
      pixmap: the request draws it off the left edge, whatever is in the pixmap. */
  lemma Misplaced(pic: Picture)
    requires Sized(pic, 0x8001, 1)
    ensures var d := Draw(0x8000, 0, 1, 1, [0, 0, 0, 0], 4, "BGRX");
      && Clipped(d, 0x8001, 1) == Ok((1, 1)) && SourceError(d, 1, 1).None?
      && X11Rectangle(pic, 0x8001, 1, d, 1, 1, 1)[0][0x8000] == pic[0][0x8000]
      && PaintRectangle(pic, 0x8001, 1, d, 1, 1)[0][0x8000] == [0, 0, 0, 0]
  {
  }

  /** The first bytes of a buffer that holds the packed conversion of a draw are
      its pixels. */
  lemma PackedIsDrawn(buf: seq<byte>, was: seq<byte>, d: Draw, cw: nat, ch: nat, i: nat, j: nat)
    requires SourceError(d, cw, ch).None? && i < cw && j < ch && d.rowstride >= 0
    requires |buf| >= BufferSize(cw, ch)
    requires RowsConverted(buf, was, 0, 4 * cw, d.pixels, d.rowstride, cw, ch, ConverterFor(d.format).value)
    ensures PackedPixel(buf[..BufferSize(cw, ch)], cw, ch, i, j) == DrawPixel(d, cw, ch, i, j)
  {
    hide Offset, RowsConverted, Converted, ConverterFor, BufferSize;
    ConvertedPixel(buf, was, 0, 4 * cw, d.pixels, d.rowstride, cw, ch, ConverterFor(d.format).value, i, j);
    SourceInside(d, cw, ch, i, j);
    PixelInside(cw, ch, i, j);
    SliceOfSlice(buf, 0, BufferSize(cw, ch), Offset(j, 4 * cw) + 4 * i, 4);
  }

  /** Uploading the packed conversion of a draw in bands paints it. */
  lemma BandedIsPainted(pic: Picture, w: nat, h: nat, buf: seq<byte>, was: seq<byte>, d: Draw, cw: nat, ch: nat, n: nat)
    requires Sized(pic, w, h) && SourceError(d, cw, ch).None? && n >= 1 && d.x >= 0 && d.y >= 0 && d.rowstride >= 0
    requires |buf| >= BufferSize(cw, ch)
    requires RowsConverted(buf, was, 0, 4 * cw, d.pixels, d.rowstride, cw, ch, ConverterFor(d.format).value)
    ensures Banded(pic, w, h, d.x, d.y, cw, ch, buf[..BufferSize(cw, ch)], n, ch) == X11Rectangle(pic, w, h, d, cw, ch, n)
  {
    hide DrawPixel, PackedPixel, SourceError, BandStart, BufferSize, RowsConverted;
    var data := buf[..BufferSize(cw, ch)];
    var a, b := Banded(pic, w, h, d.x, d.y, cw, ch, data, n, ch), X11Rectangle(pic, w, h, d, cw, ch, n);
    forall py | 0 <= py < h ensures a[py] == b[py] {
      forall px | 0 <= px < w ensures a[py][px] == b[py][px] {
        assert a[py][px] == BandedPixel(pic, w, h, d.x, d.y, cw, ch, data, n, ch, px, py);
        if d.x <= px < d.x + cw && d.y <= py < d.y + ch {
          PackedIsDrawn(buf, was, d, cw, ch, px - d.x, py - d.y);
        }
      }
    }
  }

  /** Before any band the pixmap is as it was. */
  lemma NothingBanded(pic: Picture, w: nat, h: nat, x: nat, y: nat, cw: nat, ch: nat, data: seq<byte>, n: nat)
    requires Sized(pic, w, h) && n >= 1 && |data| == BufferSize(cw, ch)
    ensures Banded(pic, w, h, x, y, cw, ch, data, n, 0) == pic
  {
    var q := Banded(pic, w, h, x, y, cw, ch, data, n, 0);
    forall py | 0 <= py < h ensures q[py] == pic[py] {
    }
  }

  // ---- the window --------------------------------------------------------------

  /** What painting d over X11 makes of a pixmap, and the error it reports. */
  function X11PaintPicture(pic: Picture, w: nat, h: nat, d: Draw, maxImageBytes: nat): (Picture, Option<PaintError>)
    requires Sized(pic, w, h)
  {
    var clip := Clipped(d, w, h);
    if clip.Err? then (pic, Some(clip.error))
    else if clip.value.0 == 0 || clip.value.1 == 0 then (pic, None)
    else
      var e := SourceError(d, clip.value.0, clip.value.1);
      if e.Some? then (pic, e)
      else (X11Rectangle(pic, w, h, d, clip.value.0, clip.value.1, RowsPerRequest(maxImageBytes, clip.value.0)), None)
  }

  /** In a window whose coordinates fit 16 signed bits both backends paint alike. */
  lemma BackendsAgree(pic: Picture, w: nat, h: nat, d: Draw, maxImageBytes: nat)
    requires Sized(pic, w, h) && w <= MAX_INT16 + 1 && h <= MAX_INT16 + 1
    ensures X11PaintPicture(pic, w, h, d, maxImageBytes) == PaintPicture(pic, w, h, d)
  {
    hide SourceError, X11Rectangle, PaintRectangle, Sized;
    var clip := Clipped(d, w, h);
    if clip.Ok? && clip.value.0 > 0 && clip.value.1 > 0 && SourceError(d, clip.value.0, clip.value.1).None? {
      AllPlaced(pic, w, h, d, clip.value.0, clip.value.1, RowsPerRequest(maxImageBytes, clip.value.0));
    }
  }

  class X11Window {
    const maxImageBytes: nat
    var width: uint16
    var height: uint16
    var scratch: array<byte>
    // The server's side: the requests it got and the pixmap they left.
    var sent: seq<Upload>
    var pixmap: Option<Picture>

    constructor (maxImageBytes: nat, width: uint16, height: uint16)
      ensures Valid() && fresh(scratch) && pixmap == None && sent == []
    {
      this.maxImageBytes := maxImageBytes;
      this.width, this.height := width, height;
      scratch := new byte[0];
      sent, pixmap := [], None;
    }

    ghost predicate Valid()
      reads this
    {
      pixmap.Some? ==> Sized(pixmap.value, width, height)
    }

    method PutImages(x: nat, y: nat, w: nat, h: nat, data: seq<byte>)
      requires Valid() && pixmap.Some?
      requires x + w <= width && y + h <= height && w > 0
      requires |data| == BufferSize(w, h)
      modifies `sent, `pixmap
      ensures Valid() && pixmap.Some?
      ensures sent == old(sent) + Bands(x, y, w, h, data, RowsPerRequest(maxImageBytes, w), 0)
      ensures pixmap.value == Banded(old(pixmap.value), width, height, x, y, w, h, data, RowsPerRequest(maxImageBytes, w), h)
    {
      hide Banded, Bands, Drawn, Band, Sized, BufferSize;
      var stride := w * BYTES_PER_PIXEL;
      var rowsPerRequest := Max(1, maxImageBytes / stride);
      var row := 0;
      ghost var pic := pixmap.value;
      NothingBanded(pic, width, height, x, y, w, h, data, rowsPerRequest);
      while row < h
        invariant Valid() && pixmap.Some?
        invariant row < h ==> BandStart(row, rowsPerRequest) == row
        invariant old(sent) + Bands(x, y, w, h, data, rowsPerRequest, 0) == sent + Bands(x, y, w, h, data, rowsPerRequest, Min(row, h))
        invariant pixmap.value == Banded(pic, width, height, x, y, w, h, data, rowsPerRequest, Min(row, h))
      {
        var rows := Min(rowsPerRequest, h - row);
        NextBand(x, y, w, h, data, rowsPerRequest, row);
        BandDrawn(pic, width, height, x, y, w, h, data, rowsPerRequest, row, rows);
        var request := Band(x, y, w, h, data, row, rows);
        sent := sent + [request];
        pixmap := Some(Drawn(pixmap.value, width, height, request));
        row := row + rowsPerRequest;
      }
      NoBand(x, y, w, h, data, rowsPerRequest);
    }

    method Paint(d: Draw) returns (err: Option<PaintError>)
      requires Valid()
      modifies this, scratch
      ensures Valid() && width == old(width) && height == old(height)
      ensures scratch == old(scratch) || fresh(scratch)
      ensures old(pixmap).None? ==> err == Some(NoBuffer) && pixmap.None?
      ensures old(pixmap).Some? ==>
        pixmap.Some? && (pixmap.value, err) == X11PaintPicture(old(pixmap.value), width, height, d, maxImageBytes)
    {
      hide RowsConverted, RowsFit, Written, Offset, SourceError, ConvertError, X11Rectangle, Banded, Bands, Sized, BufferSize;
      if pixmap.None? {
        return Some(NoBuffer);
      }
      var clip := ClipDamage(d.x, d.y, d.width, d.height, width, height);
      if clip.Err? {
        return Some(clip.error);
      }
      var (w, h) := clip.value;
      if w == 0 || h == 0 {
        return None;
      }
      var dstStride := w * BYTES_PER_PIXEL;
      if scratch.Length < BufferSize(w, h) {
        scratch := new byte[BufferSize(w, h)];
      }
      RectangleInside(w, h, 0, 0, w, h);
      OffsetZero(4 * w);
      PaintErrorIsSourceError(d, scratch.Length, w, w, h);
      ghost var was := scratch[..];
      err := Convert(scratch, 0, dstStride, d.pixels, d.rowstride, w, h, d.format);
      if err.Some? {
        return;
      }
      BandedIsPainted(pixmap.value, width, height, scratch[..], was, d, w, h, RowsPerRequest(maxImageBytes, w));
      PutImages(d.x, d.y, w, h, scratch[..BufferSize(w, h)]);
    }
  }

  lemma NextBand(x: nat, y: nat, width: nat, height: nat, data: seq<byte>, n: nat, row: nat)
    requires x + width < 0x1_0000 && y + height < 0x1_0000 && width > 0 && n >= 1
    requires |data| == BufferSize(width, height) && row < height
    ensures var rows := Min(n, height - row);
      && Bands(x, y, width, height, data, n, row)
         == [Band(x, y, width, height, data, row, rows)] + Bands(x, y, width, height, data, n, Min(row + n, height))
    ensures BandStart(row, n) == row ==> BandStart(row + n, n) == row + n
  {
  }

  lemma NoBand(x: nat, y: nat, width: nat, height: nat, data: seq<byte>, n: nat)
    requires x + width < 0x1_0000 && y + height < 0x1_0000 && width > 0 && n >= 1
    requires |data| == BufferSize(width, height)
    ensures Bands(x, y, width, height, data, n, height) == []
  {
  }
}
