/** Damage painting: clipping, format conversion between two strides, and the
    picture that a flat pixel buffer stands for. */
module Pixels {
  import opened Bytes

  const BYTES_PER_PIXEL: int := 4

  /** The memory byte orders the server may use. */
  datatype Kind = Copy4 | SwapRB4 | ExpandBGR | ExpandRGB

  function ConverterFor(format: string): Option<Kind> {
    if format == "BGRX" || format == "BGRA" then Some(Copy4)
    else if format == "RGBX" || format == "RGBA" then Some(SwapRB4)
    else if format == "BGR" then Some(ExpandBGR)
    else if format == "RGB" then Some(ExpandRGB)
    else None
  }

  function SourceBytes(kind: Kind): (n: nat)
    ensures n == 3 || n == 4
  {
    if kind.Copy4? || kind.SwapRB4? then 4 else 3
  }

  type Pixel = p: seq<byte> | |p| == 4 witness [0, 0, 0, 0]

  /** A source pixel as blue, green, red and a fourth byte. */
  function Converted(kind: Kind, s: seq<byte>): Pixel
    requires |s| == SourceBytes(kind)
  {
    match kind
    case Copy4 => s
    case SwapRB4 => [s[2], s[1], s[0], s[3]]
    case ExpandBGR => [s[0], s[1], s[2], 0xff]
    case ExpandRGB => [s[2], s[1], s[0], 0xff]
  }

  /** A format is named by the order of its bytes in memory, and there are six. */
  lemma FormatsNamed(format: string)
    ensures ConverterFor(format).Some? <==> format in ["BGRX", "BGRA", "RGBX", "RGBA", "BGR", "RGB"]
    ensures ConverterFor(format).Some? ==> SourceBytes(ConverterFor(format).value) == |format|
  {
  }

  /** What the letters of a format's name say: the byte under B becomes the first, the one
      under G the second, the one under R the third; a fourth byte is kept, and is 255
      where the format has none. */
  lemma ChannelOrder(format: string, s: seq<byte>, i: nat)
    requires ConverterFor(format).Some? && |s| == |format| == SourceBytes(ConverterFor(format).value) && i < 3
    ensures var p := Converted(ConverterFor(format).value, s);
      && (format[i] == 'B' ==> p[0] == s[i])
      && (format[i] == 'G' ==> p[1] == s[i])
      && (format[i] == 'R' ==> p[2] == s[i])
      && (format[i] == 'B' || format[i] == 'G' || format[i] == 'R')
      && p[3] == if |format| == 4 then s[3] else 255
  {
  }

  datatype PaintError = NoBuffer | NegativeOrigin | UnknownFormat | SmallRowstride | ShortSource | ShortDestination

  // ---- clipping ------------------------------------------------------------

  /** The part of a damage rectangle that lies inside a window. */
  function ClipDamage(x: int, y: int, width: int, height: int, winWidth: int, winHeight: int): Result<(nat, nat), PaintError> {
    if x < 0 || y < 0 then Err(NegativeOrigin)
    else if x >= winWidth || y >= winHeight then Ok((0, 0))
    else Ok((Max(Min(width, winWidth - x), 0), Max(Min(height, winHeight - y), 0)))
  }

  /** A pixel of the window is painted if and only if it lies in the rectangle. */
  lemma ClipExact(x: int, y: int, width: int, height: int, winWidth: int, winHeight: int, px: int, py: int)
    requires x >= 0 && y >= 0
    ensures x >= winWidth || y >= winHeight ==> ClipDamage(x, y, width, height, winWidth, winHeight) == Ok((0, 0))
    ensures var clip := ClipDamage(x, y, width, height, winWidth, winHeight).value;
      (x <= px < x + clip.0 && y <= py < y + clip.1)
      ==> (x <= px < x + width && y <= py < y + height && px < winWidth && py < winHeight)
    ensures var clip := ClipDamage(x, y, width, height, winWidth, winHeight).value;
      (x <= px < x + width && y <= py < y + height && px < winWidth && py < winHeight)
      ==> (x <= px < x + clip.0 && y <= py < y + clip.1)
  {
  }

  // ---- strides -------------------------------------------------------------

  /** Where item k starts when each of them takes stride bytes. */
  function Offset(k: nat, stride: nat): nat {
    k * stride
  }

  lemma OffsetNext(k: nat, stride: nat)
    ensures Offset(k + 1, stride) == Offset(k, stride) + stride
  {
  }

  lemma OffsetZero(stride: nat)
    ensures Offset(0, stride) == 0
  {
  }

  lemma {:induction false} OffsetsApart(a: nat, b: nat, stride: nat)
    requires a < b
    ensures Offset(a, stride) + stride <= Offset(b, stride)
  {
    hide Offset;
    OffsetNext(b - 1, stride);
    if a == b - 1 {
    } else {
      OffsetsApart(a, b - 1, stride);
    }
  }

  // ---- rows ----------------------------------------------------------------

  /** The first n pixels of a source row, converted. */
  function RowBytes(kind: Kind, s: seq<byte>, n: nat): (r: seq<byte>)
    requires |s| >= Offset(n, SourceBytes(kind))
    ensures |r| == 4 * n
  {
    if n == 0 then []
    else
      OffsetNext(n - 1, SourceBytes(kind));
      RowBytes(kind, s, n - 1) + Converted(kind, SourcePixel(kind, s, n - 1))
  }

  /** Source pixel p of a row. */
  function SourcePixel(kind: Kind, s: seq<byte>, p: nat): (r: seq<byte>)
    requires |s| >= Offset(p, SourceBytes(kind)) + SourceBytes(kind)
    ensures |r| == SourceBytes(kind)
  {
    s[Offset(p, SourceBytes(kind))..Offset(p, SourceBytes(kind)) + SourceBytes(kind)]
  }

  lemma {:induction false} RowPixel(kind: Kind, s: seq<byte>, n: nat, p: nat)
    requires p < n && |s| >= Offset(n, SourceBytes(kind))
    ensures |s| >= Offset(p, SourceBytes(kind)) + SourceBytes(kind)
    ensures RowBytes(kind, s, n)[4 * p..4 * p + 4] == Converted(kind, SourcePixel(kind, s, p))
  {
    hide Offset, Converted, SourcePixel, SourceBytes;
    OffsetNext(n - 1, SourceBytes(kind));
    if p == n - 1 {
    } else {
      RowPixel(kind, s, n - 1, p);
      SliceOfAppend(RowBytes(kind, s, n - 1), Converted(kind, SourcePixel(kind, s, n - 1)), 4 * p, 4 * p + 4);
    }
  }

  /** Converts one row into dst at `to`. */
  method ConvertRow(kind: Kind, dst: array<byte>, to: nat, s: seq<byte>, width: nat)
    requires |s| == Offset(width, SourceBytes(kind)) && to + 4 * width <= dst.Length
    modifies dst
    ensures dst[to..to + 4 * width] == RowBytes(kind, s, width)
    ensures SameOutside(dst[..], old(dst[..]), to, to + 4 * width)
  {
    match kind
    case Copy4 => ConvertCopy(dst, to, s, width);
    case SwapRB4 => ConvertSwap(dst, to, s, width);
    case ExpandBGR => ConvertBGR(dst, to, s, width);
    case ExpandRGB => ConvertRGB(dst, to, s, width);
  }

  lemma {:induction false} CopyIsIdentity(s: seq<byte>, n: nat)
    requires |s| >= Offset(n, 4)
    ensures RowBytes(Copy4, s, n) == s[..Offset(n, 4)]
  {
    hide Offset;
    if n > 0 {
      OffsetNext(n - 1, 4);
      CopyIsIdentity(s, n - 1);
      var at := Offset(n - 1, 4);
      assert Converted(Copy4, SourcePixel(Copy4, s, n - 1)) == s[at..at + 4];
      assert s[..at + 4] == s[..at] + s[at..at + 4];
    } else {
      assert Offset(0, 4) == 0 by { OffsetZero(4); }
    }
  }

  method ConvertCopy(dst: array<byte>, to: nat, s: seq<byte>, width: nat)
    requires |s| == 4 * width && to + 4 * width <= dst.Length
    modifies dst
    ensures dst[to..to + 4 * width] == RowBytes(Copy4, s, width)
    ensures SameOutside(dst[..], old(dst[..]), to, to + 4 * width)
  {
    CopyIsIdentity(s, width);
    assert s[..4 * width] == s && Offset(width, 4) == 4 * width;
    hide RowBytes, Offset;
    for i := 0 to 4 * width
      invariant dst[to..to + i] == s[..i]
      invariant SameOutside(dst[..], old(dst[..]), to, to + 4 * width)
    {
      dst[to + i] := s[i];
      assert dst[to..to + i + 1] == dst[to..to + i] + [s[i]];
    }
  }

  lemma RowExtend(kind: Kind, s: seq<byte>, n: nat, width: nat)
    requires |s| == Offset(width, SourceBytes(kind)) && n < width
    ensures Offset(n + 1, SourceBytes(kind)) == Offset(n, SourceBytes(kind)) + SourceBytes(kind) <= |s|
    ensures RowBytes(kind, s, n + 1) == RowBytes(kind, s, n) + Converted(kind, SourcePixel(kind, s, n))
  {
    hide Offset, Converted;
    OffsetNext(n, SourceBytes(kind));
    OffsetsApart(n, width, SourceBytes(kind));
  }

  /** The four assignments of a converter's loop body, behind what is there from `from` on. */
  method PutPixel(dst: array<byte>, ghost from: nat, at: nat, b: byte, g: byte, r: byte, x: byte)
    requires from <= at && at + 4 <= dst.Length
    modifies dst
    ensures dst[from..at + 4] == old(dst[from..at]) + [b, g, r, x]
    ensures SameOutside(dst[..], old(dst[..]), at, at + 4)
  {
    dst[at], dst[at + 1], dst[at + 2], dst[at + 3] := b, g, r, x;
  }

  method ConvertSwap(dst: array<byte>, to: nat, s: seq<byte>, width: nat)
    requires |s| == 4 * width && to + 4 * width <= dst.Length
    modifies dst
    ensures dst[to..to + 4 * width] == RowBytes(SwapRB4, s, width)
    ensures SameOutside(dst[..], old(dst[..]), to, to + 4 * width)
  {
    hide RowBytes;
    var i := 0;
    ghost var n := 0;
    assert RowBytes(SwapRB4, s, 0) == [];
    while i + 3 < |s|
      invariant i == 4 * n && n <= width
      invariant dst[to..to + i] == RowBytes(SwapRB4, s, n)
      invariant SameOutside(dst[..], old(dst[..]), to, to + 4 * width)
    {
      RowExtend(SwapRB4, s, n, width);
      PutPixel(dst, to, to + i, s[i + 2], s[i + 1], s[i], s[i + 3]);
      i := i + 4;
      n := n + 1;
    }
  }

  method ConvertBGR(dst: array<byte>, to: nat, s: seq<byte>, width: nat)
    requires |s| == 3 * width && to + 4 * width <= dst.Length
    modifies dst
    ensures dst[to..to + 4 * width] == RowBytes(ExpandBGR, s, width)
    ensures SameOutside(dst[..], old(dst[..]), to, to + 4 * width)
  {
    hide RowBytes;
    var i, j := 0, 0;
    ghost var n := 0;
    assert RowBytes(ExpandBGR, s, 0) == [];
    while i + 2 < |s|
      invariant i == 3 * n && j == 4 * n && n <= width
      invariant dst[to..to + j] == RowBytes(ExpandBGR, s, n)
      invariant SameOutside(dst[..], old(dst[..]), to, to + 4 * width)
    {
      RowExtend(ExpandBGR, s, n, width);
      PutPixel(dst, to, to + j, s[i], s[i + 1], s[i + 2], 0xff);
      i, j := i + 3, j + 4;
      n := n + 1;
    }
  }

  method ConvertRGB(dst: array<byte>, to: nat, s: seq<byte>, width: nat)
    requires |s| == 3 * width && to + 4 * width <= dst.Length
    modifies dst
    ensures dst[to..to + 4 * width] == RowBytes(ExpandRGB, s, width)
    ensures SameOutside(dst[..], old(dst[..]), to, to + 4 * width)
  {
    hide RowBytes;
    var i, j := 0, 0;
    ghost var n := 0;
    assert RowBytes(ExpandRGB, s, 0) == [];
    while i + 2 < |s|
      invariant i == 3 * n && j == 4 * n && n <= width
      invariant dst[to..to + j] == RowBytes(ExpandRGB, s, n)
      invariant SameOutside(dst[..], old(dst[..]), to, to + 4 * width)
    {
      RowExtend(ExpandRGB, s, n, width);
      PutPixel(dst, to, to + j, s[i + 2], s[i + 1], s[i], 0xff);
      i, j := i + 3, j + 4;
      n := n + 1;
    }
  }

  // ---- rectangles ----------------------------------------------------------

  /** Source row `row`: as many bytes as width pixels take. */
  function SourceRow(src: seq<byte>, srcStride: nat, row: nat, n: nat): (r: seq<byte>)
    requires Offset(row, srcStride) + n <= |src|
    ensures |r| == n
  {
    src[Offset(row, srcStride)..Offset(row, srcStride) + n]
  }

  /** The rows from 0 to rows - 1 of a rectangle, converted, are in a at base; what
      lies between them is as in b. */
  ghost predicate RowsConverted(a: seq<byte>, b: seq<byte>, base: nat, dstStride: nat,
                                src: seq<byte>, srcStride: nat, width: nat, rows: nat, kind: Kind)
  {
    && |a| == |b|
    && (forall row :: 0 <= row < rows ==>
          && Offset(row, srcStride) + Offset(width, SourceBytes(kind)) <= |src|
          && base + Offset(row, dstStride) + 4 * width <= |a|
          && a[base + Offset(row, dstStride)..base + Offset(row, dstStride) + 4 * width]
             == RowBytes(kind, SourceRow(src, srcStride, row, Offset(width, SourceBytes(kind))), width))
    && (forall k :: 0 <= k < |a| && !InRows(k, base, dstStride, width, rows) ==> a[k] == b[k])
  }

  /** Byte k lies in one of the rows. */
  ghost predicate InRows(k: int, base: nat, stride: nat, width: nat, rows: nat) {
    exists row: nat :: row < rows && base + Offset(row, stride) <= k < base + Offset(row, stride) + 4 * width
  }

  function ConvertError(dstLen: int, dstStride: nat, srcLen: nat, srcStride: int, width: nat, height: nat, format: string): Option<PaintError> {
    if ConverterFor(format).None? then Some(UnknownFormat)
    else if srcStride < width * SourceBytes(ConverterFor(format).value) then Some(SmallRowstride)
    else if srcLen < srcStride * height then Some(ShortSource)
    else if dstLen < dstStride * (height - 1) + width * 4 then Some(ShortDestination)
    else None
  }

  /** a with the bytes from `at` on replaced by s. */
  function Overwritten(a: seq<byte>, at: nat, s: seq<byte>): (r: seq<byte>)
    requires at + |s| <= |a|
    ensures |r| == |a|
  {
    a[..at] + s + a[at + |s|..]
  }

  /** The last of some rows, and so each of them, fits both buffers. */
  predicate RowsFit(dstLen: nat, base: nat, dstStride: nat, srcLen: nat, srcStride: nat, width: nat, rows: nat, kind: Kind) {
    rows > 0 ==>
      && Offset(rows - 1, srcStride) + Offset(width, SourceBytes(kind)) <= srcLen
      && base + Offset(rows - 1, dstStride) + 4 * width <= dstLen
  }

  lemma RowsFitBefore(dstLen: nat, base: nat, dstStride: nat, srcLen: nat, srcStride: nat, width: nat, rows: nat, kind: Kind)
    requires rows > 0 && RowsFit(dstLen, base, dstStride, srcLen, srcStride, width, rows, kind)
    ensures RowsFit(dstLen, base, dstStride, srcLen, srcStride, width, rows - 1, kind)
  {
    hide Offset;
    if rows > 1 {
      OffsetNext(rows - 2, dstStride);
      OffsetNext(rows - 2, srcStride);
    }
  }

  /** A buffer after the first rows were written into it, one after the other; where the
      rows of the destination overlap, the later one stays. */
  function Written(b: seq<byte>, base: nat, dstStride: nat, src: seq<byte>, srcStride: nat, width: nat, rows: nat, kind: Kind): (r: seq<byte>)
    requires RowsFit(|b|, base, dstStride, |src|, srcStride, width, rows, kind)
    ensures |r| == |b|
  {
    if rows == 0 then b
    else
      RowsFitBefore(|b|, base, dstStride, |src|, srcStride, width, rows, kind);
      Overwritten(Written(b, base, dstStride, src, srcStride, width, rows - 1, kind),
                  base + Offset(rows - 1, dstStride),
                  RowBytes(kind, SourceRow(src, srcStride, rows - 1, Offset(width, SourceBytes(kind))), width))
  }

  /** Rows that do not overlap are all there in the end, and nothing else changed. */
  lemma {:induction false} WrittenConverted(b: seq<byte>, base: nat, dstStride: nat, src: seq<byte>, srcStride: nat, width: nat, rows: nat, kind: Kind)
    requires 4 * width <= dstStride
    requires RowsFit(|b|, base, dstStride, |src|, srcStride, width, rows, kind)
    ensures RowsConverted(Written(b, base, dstStride, src, srcStride, width, rows, kind), b, base, dstStride, src, srcStride, width, rows, kind)
  {
    if rows == 0 {
    } else {
      hide Offset, RowBytes, SourceRow, RowsConverted;
      RowsFitBefore(|b|, base, dstStride, |src|, srcStride, width, rows, kind);
      WrittenConverted(b, base, dstStride, src, srcStride, width, rows - 1, kind);
      RowsGrow(Written(b, base, dstStride, src, srcStride, width, rows, kind), Written(b, base, dstStride, src, srcStride, width, rows - 1, kind),
               b, base, dstStride, src, srcStride, width, rows - 1, kind);
    }
  }

  /** Converts height rows from src into dst, from index base on. */
  method Convert(dst: array<byte>, base: nat, dstStride: nat, src: seq<byte>, srcStride: int, width: nat, height: nat, format: string)
    returns (err: Option<PaintError>)
    requires base <= dst.Length
    modifies dst
    ensures err == ConvertError(dst.Length - base, dstStride, |src|, srcStride, width, height, format)
    ensures err.Some? ==> dst[..] == old(dst[..])
    ensures err.None? ==>
      && srcStride >= 0
      && RowsFit(dst.Length, base, dstStride, |src|, srcStride, width, height, ConverterFor(format).value)
      && dst[..] == Written(old(dst[..]), base, dstStride, src, srcStride, width, height, ConverterFor(format).value)
    ensures err.None? && 4 * width <= dstStride ==>
      RowsConverted(dst[..], old(dst[..]), base, dstStride, src, srcStride, width, height, ConverterFor(format).value)
  {
    hide RowBytes, SourceRow, RowsConverted, Written;
    var converter := ConverterFor(format);
    if converter.None? {
      return Some(UnknownFormat);
    }
    var kind := converter.value;
    if srcStride < width * SourceBytes(kind) {
      return Some(SmallRowstride);
    }
    if |src| < srcStride * height {
      return Some(ShortSource);
    }
    if dst.Length - base < dstStride * (height - 1) + width * 4 {
      return Some(ShortDestination);
    }
    var n := Offset(width, SourceBytes(kind));
    ghost var was := dst[..];
    WrittenNothing(was, base, dstStride, src, srcStride, width, kind);
    for row := 0 to height
      invariant RowsFit(dst.Length, base, dstStride, |src|, srcStride, width, row, kind)
      invariant dst[..] == Written(was, base, dstStride, src, srcStride, width, row, kind)
    {
      RowFits(row, height, dstStride, 4 * width);
      RowFitsSource(row, height, srcStride, n);
      ghost var before := dst[..];
      var to := base + Offset(row, dstStride);
      ConvertRow(kind, dst, to, SourceRow(src, srcStride, row, n), width);
      WrittenNext(dst[..], was, base, dstStride, src, srcStride, width, row, kind);
    }
    if 4 * width <= dstStride {
      WrittenConverted(was, base, dstStride, src, srcStride, width, height, kind);
    }
    return None;
  }

  lemma WrittenNothing(b: seq<byte>, base: nat, dstStride: nat, src: seq<byte>, srcStride: nat, width: nat, kind: Kind)
    ensures Written(b, base, dstStride, src, srcStride, width, 0, kind) == b
  {
  }

  lemma WrittenNext(a: seq<byte>, b: seq<byte>, base: nat, dstStride: nat, src: seq<byte>, srcStride: nat, width: nat, row: nat, kind: Kind)
    requires RowsFit(|b|, base, dstStride, |src|, srcStride, width, row, kind)
    requires RowsFit(|b|, base, dstStride, |src|, srcStride, width, row + 1, kind)
    requires var at := base + Offset(row, dstStride);
      && SameOutside(a, Written(b, base, dstStride, src, srcStride, width, row, kind), at, at + 4 * width)
      && a[at..at + 4 * width] == RowBytes(kind, SourceRow(src, srcStride, row, Offset(width, SourceBytes(kind))), width)
    ensures a == Written(b, base, dstStride, src, srcStride, width, row + 1, kind)
  {
    hide Offset, RowBytes, SourceRow;
    var at := base + Offset(row, dstStride);
    var before := Written(b, base, dstStride, src, srcStride, width, row, kind);
    assert a[..at] == before[..at];
    assert a[at + 4 * width..] == before[at + 4 * width..];
    assert a == a[..at] + a[at..at + 4 * width] + a[at + 4 * width..];
  }

  lemma RowFits(row: nat, height: nat, stride: nat, n: nat)
    requires row < height
    ensures Offset(row, stride) + n <= stride * (height - 1) + n
  {
    assert stride * (height - 1) == row * stride + (height - 1 - row) * stride;
    assert (height - 1 - row) * stride >= 0;
  }

  lemma RowFitsSource(row: nat, height: nat, stride: nat, n: nat)
    requires row < height && n <= stride
    ensures Offset(row, stride) + n <= stride * height
  {
    RowFits(row, height, stride, n);
    assert stride * height == stride * (height - 1) + stride;
  }

  lemma RowsGrow(a: seq<byte>, before: seq<byte>, b: seq<byte>, base: nat, dstStride: nat,
                 src: seq<byte>, srcStride: nat, width: nat, rows: nat, kind: Kind)
    requires 4 * width <= dstStride
    requires RowsConverted(before, b, base, dstStride, src, srcStride, width, rows, kind)
    requires Offset(rows, srcStride) + Offset(width, SourceBytes(kind)) <= |src|
    requires base + Offset(rows, dstStride) + 4 * width <= |a|
    requires SameOutside(a, before, base + Offset(rows, dstStride), base + Offset(rows, dstStride) + 4 * width)
    requires a[base + Offset(rows, dstStride)..base + Offset(rows, dstStride) + 4 * width]
      == RowBytes(kind, SourceRow(src, srcStride, rows, Offset(width, SourceBytes(kind))), width)
    ensures RowsConverted(a, b, base, dstStride, src, srcStride, width, rows + 1, kind)
  {
    hide RowBytes, Offset, SourceRow;
    forall row | 0 <= row < rows
      ensures base + Offset(row, dstStride) + 4 * width <= |a|
      ensures a[base + Offset(row, dstStride)..base + Offset(row, dstStride) + 4 * width]
           == before[base + Offset(row, dstStride)..base + Offset(row, dstStride) + 4 * width]
    {
      OffsetsApart(row, rows, dstStride);
    }
    forall k | 0 <= k < |a| && !InRows(k, base, dstStride, width, rows + 1) ensures a[k] == b[k] {
      assert !InRows(k, base, dstStride, width, rows);
    }
  }
}
