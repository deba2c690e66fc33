/** Handling a draw packet: what is painted, when the shared memory is given back, and
    the one acknowledgement every packet gets. */
module Draws {
  import opened Bytes
  import opened Rencodeplus
  import opened Mmap

  const DECODE_ERROR: int := -1
  const DECODE_NOT_FOUND: int := -2

  /** A packet's options as the handler reads them: absent ones are Nil, empty or
      false. */
  datatype Options = Options(chunks: Value, rgbFormat: string, lz4: bool, zstd: bool)

  datatype Packet = Packet(wid: int, x: int, y: int, width: int, height: int, coding: string,
                           pixels: Value, sequence: int, rowstride: int, options: Options)

  /** What the packet meets: what decoding its image gives, whether painting succeeds,
      and the microseconds that pass. */
  datatype Context = Context(decoded: Option<(seq<byte>, int)>, painted: bool, elapsed: int)

  /** What the handler does that others see, in order. */
  datatype Effect =
    | Painted(wid: int, x: int, y: int, width: int, height: int, pixels: seq<byte>, rowstride: int, format: string, ok: bool)
    | Published(cursor: nat)
    | Acked(sequence: int, wid: int, width: int, height: int, decodeTime: int)

  // ---- what a draw comes to --------------------------------------------------------

  /** Binary or text, as bytes. */
  function PayloadBytes(v: Value): Option<seq<byte>> {
    if v.Binary? then Some(v.data) else if v.Text? then Some(v.text) else None
  }

  function RawChunks(p: Packet): Value {
    if p.options.chunks != Nil then p.options.chunks else p.pixels
  }

  predicate IsRgb(coding: string) {
    coding == "rgb" || coding == "rgb24" || coding == "rgb32"
  }

  predicate IsImage(coding: string) {
    coding == "jpeg" || coding == "png" || coding == "png/P" || coding == "png/L" || coding == "webp"
  }

  /** The shared memory as it is when the packet comes in. */
  datatype Memory = NoMemory | Memory(enabled: bool, data: seq<byte>)

  /** The packet's pixels are in the shared memory, where it says. */
  predicate InMemory(p: Packet, m: Memory) {
    p.coding == "mmap" && m.Memory? && m.enabled && GoodChunks(RawChunks(p), |m.data|)
  }

  function MemoryPixels(p: Packet, m: Memory): seq<byte>
    requires InMemory(p, m)
  {
    ChunksInside(RawChunks(p), |m.data|);
    ChunkBytes(m.data, ChunksOf(RawChunks(p), |m.data|))
  }

  /** The pixels to paint, their rowstride and their format; None if there is nothing
      that could be painted. */
  function Pixels(p: Packet, m: Memory, c: Context): Option<(seq<byte>, int, string)> {
    if p.coding == "mmap" then
      if !InMemory(p, m) then None
      else
        var pixels := MemoryPixels(p, m);
        if p.rowstride > 0 && p.height > 0 && p.rowstride <= |pixels| / p.height
        then Some((pixels, p.rowstride, if p.options.rgbFormat == "" then "RGB" else p.options.rgbFormat))
        else None
    else if PayloadBytes(p.pixels).None? then None
    else if IsRgb(p.coding) then
      if p.options.lz4 || p.options.zstd then None
      else Some((PayloadBytes(p.pixels).value, p.rowstride, RgbFormat(p)))
    else if IsImage(p.coding) && c.decoded.Some? then Some((c.decoded.value.0, c.decoded.value.1, "BGRX"))
    else None
  }

  function RgbFormat(p: Packet): string {
    if p.options.rgbFormat != "" then p.options.rgbFormat
    else if p.coding == "rgb24" then "RGB"
    else if p.coding == "rgb32" then "RGBX"
    else ""
  }

  /** Everything a draw does: paint if there is a window and something to paint, give
      back the memory if its pixels were in it, acknowledge. */
  function Effects(p: Packet, windows: set<int>, m: Memory, c: Context): seq<Effect> {
    var pixels := Pixels(p, m, c);
    var paints := p.wid in windows && pixels.Some?;
    var painted := if paints then [Painted(p.wid, p.x, p.y, p.width, p.height, pixels.value.0, pixels.value.1, pixels.value.2, c.painted)] else [];
    var published := if InMemory(p, m) then [Published(Cursor(p, m))] else [];
    var time :=
      if paints && c.painted then Max(c.elapsed, 1)
      else if p.wid !in windows && (p.coding == "mmap" ==> InMemory(p, m)) then DECODE_NOT_FOUND
      else DECODE_ERROR;
    painted + published + [Acked(p.sequence, p.wid, p.width, p.height, time)]
  }

  /** The end of the last chunk, as the four bytes of the header hold it. */
  function Cursor(p: Packet, m: Memory): nat
    requires InMemory(p, m)
  {
    ChunksInside(RawChunks(p), |m.data|);
    End(ChunksOf(RawChunks(p), |m.data|)) % 0x1_0000_0000
  }

  /** The memory after the draw: the cursor is published in its first bytes. */
  function MemoryAfter(p: Packet, m: Memory): Memory {
    if !InMemory(p, m) then m
    else
      ChunksInside(RawChunks(p), |m.data|);
      m.(data := LittleEndian(Cursor(p, m), 4) + m.data[4..])
  }

  // ---- the promises ----------------------------------------------------------------

  function Acks(effects: seq<Effect>): seq<Effect> {
    if effects == [] then []
    else (if effects[0].Acked? then [effects[0]] else []) + Acks(effects[1..])
  }

  lemma {:induction false} AcksAppend(a: seq<Effect>, b: seq<Effect>)
    ensures Acks(a + b) == Acks(a) + Acks(b)
  {
    if a == [] {
      assert a + b == b;
    } else {
      assert (a + b)[0] == a[0] && (a + b)[1..] == a[1..] + b;
      AcksAppend(a[1..], b);
    }
  }

  /** The acknowledgement comes last and is the only one; its decode time is never
      zero, and positive if and only if painting ran and succeeded. */
  lemma OneHonestAck(p: Packet, windows: set<int>, m: Memory, c: Context)
    ensures var es := Effects(p, windows, m, c);
      var ack := es[|es| - 1];
      && ack.Acked? && Acks(es) == [ack]
      && ack.sequence == p.sequence && ack.wid == p.wid
      && ack.decodeTime != 0
      && (ack.decodeTime > 0 <==> exists i :: 0 <= i < |es| && es[i].Painted? && es[i].ok)
  {
    hide Pixels, InMemory, Cursor;
    var es := Effects(p, windows, m, c);
    if es[0].Painted? {
      assert es[0].ok ==> es[|es| - 1].decodeTime > 0;
    }
    var k := |es| - 1;
    AcksAppend(es[..k], es[k..]);
    assert es == es[..k] + es[k..] && es[k..] == [es[k]] && es[k..][1..] == [];
    NoAcks(es[..k]);
  }

  lemma {:induction false} NoAcks(es: seq<Effect>)
    requires forall i :: 0 <= i < |es| ==> !es[i].Acked?
    ensures Acks(es) == []
  {
    if es == [] {
    } else {
      NoAcks(es[1..]);
    }
  }

  /** The cursor is published if and only if the packet's chunks are good: once, as the
      end of the last chunk, after painting and before the acknowledgement. */
  lemma CursorOnce(p: Packet, windows: set<int>, m: Memory, c: Context, i: nat)
    requires m.Memory? ==> |m.data| < 0x1_0000_0000
    requires i < |Effects(p, windows, m, c)|
    ensures var es := Effects(p, windows, m, c);
      && (es[i].Published? <==> InMemory(p, m) && i == |es| - 2)
      && (es[i].Published? ==> es[i].cursor == End(ChunksOf(RawChunks(p), |m.data|)))
      && (es[i].Painted? ==> i == 0)
  {
    if InMemory(p, m) {
      ChunksInside(RawChunks(p), |m.data|);
    }
    hide Pixels, GoodChunks, ChunksOf;
  }

  /** There is something a packet's coding lets the client paint: chunks of the shared
      memory that hold every row, unpacked pixels, or an image that can be decoded. */
  ghost predicate Paintable(p: Packet, m: Memory, c: Context) {
    if p.coding == "mmap" then
      && InMemory(p, m)
      && 0 < p.rowstride && 0 < p.height && p.rowstride * p.height <= |MemoryPixels(p, m)|
    else
      && (p.pixels.Binary? || p.pixels.Text?)
      && if p.coding in ["rgb", "rgb24", "rgb32"] then !p.options.lz4 && !p.options.zstd
         else p.coding in ["jpeg", "png", "png/P", "png/L", "webp"] && c.decoded.Some?
  }

  lemma RowsFitPixels(rowstride: int, height: int, size: nat)
    requires rowstride > 0 && height > 0
    ensures rowstride <= size / height <==> rowstride * height <= size
  {
    var q := size / height;
    assert q * height <= size < q * height + height;
    if rowstride <= q {
      Scale(rowstride, q, height);
    } else {
      Scale(q + 1, rowstride, height);
      assert (q + 1) * height == q * height + height;
    }
  }

  lemma Scale(a: nat, b: nat, k: nat)
    requires a <= b
    ensures a * k <= b * k
  {
  }

  lemma Codings(coding: string)
    ensures IsRgb(coding) <==> coding in ["rgb", "rgb24", "rgb32"]
    ensures IsImage(coding) <==> coding in ["jpeg", "png", "png/P", "png/L", "webp"]
    ensures IsRgb(coding) ==> coding != "mmap" && !IsImage(coding)
    ensures IsImage(coding) ==> coding != "mmap"
  {
    assert |"mmap"| == |"jpeg"| == |"webp"| == 4;
    assert "mmap"[0] == 'm' && "jpeg"[0] == 'j' && "webp"[0] == 'w';
  }

  lemma PaintableExact(p: Packet, m: Memory, c: Context)
    ensures Pixels(p, m, c).Some? <==> Paintable(p, m, c)
  {
    hide MemoryPixels, InMemory, IsRgb, IsImage, RgbFormat;
    Codings(p.coding);
    if p.coding == "mmap" && InMemory(p, m) && p.rowstride > 0 && p.height > 0 {
      RowsFitPixels(p.rowstride, p.height, |MemoryPixels(p, m)|);
    }
  }

  /** Something is painted if and only if the window lives and there is something to
      paint; it is painted first, once, and where the packet says. */
  lemma PaintedExact(p: Packet, windows: set<int>, m: Memory, c: Context, i: nat)
    requires i < |Effects(p, windows, m, c)|
    ensures var e := Effects(p, windows, m, c)[i];
      && (e.Painted? <==> i == 0 && p.wid in windows && Paintable(p, m, c))
      && (e.Painted? ==>
            && e.wid == p.wid && e.x == p.x && e.y == p.y && e.width == p.width && e.height == p.height
            && e.ok == c.painted)
  {
    PaintableExact(p, m, c);
    hide Pixels, Paintable, InMemory, Cursor;
  }

  /** Unpacked pixels are painted as they come, with the packet's rowstride, in the format
      it names, or else that of its coding. */
  lemma RgbPainted(p: Packet, windows: set<int>, m: Memory, c: Context)
    requires p.coding in ["rgb", "rgb24", "rgb32"] && Effects(p, windows, m, c)[0].Painted?
    ensures var e := Effects(p, windows, m, c)[0];
      && (p.pixels == Binary(e.pixels) || p.pixels == Text(e.pixels)) && e.rowstride == p.rowstride
      && e.format == (if p.options.rgbFormat != "" then p.options.rgbFormat
                      else if p.coding == "rgb24" then "RGB" else if p.coding == "rgb32" then "RGBX" else "")
  {
    hide InMemory, Cursor, IsRgb, IsImage;
    Codings(p.coding);
  }

  /** An image is painted as the pixels it decodes to, blue first. */
  lemma ImagePainted(p: Packet, windows: set<int>, m: Memory, c: Context)
    requires p.coding in ["jpeg", "png", "png/P", "png/L", "webp"] && Effects(p, windows, m, c)[0].Painted?
    ensures var e := Effects(p, windows, m, c)[0];
      c.decoded == Some((e.pixels, e.rowstride)) && e.format == "BGRX"
  {
    hide InMemory, Cursor, IsRgb, IsImage;
    Codings(p.coding);
  }

  /** Pixels in the shared memory are painted from there: the bytes of the chunk, or of
      both chunks, in their order. The packet's option says where they are, or else its
      pixel element does. */
  lemma MemoryPainted(p: Packet, windows: set<int>, m: Memory, c: Context)
    requires p.coding == "mmap" && Effects(p, windows, m, c)[0].Painted?
    ensures m.Memory? && m.enabled
    ensures var e, raw := Effects(p, windows, m, c)[0], if p.options.chunks == Nil then p.pixels else p.options.chunks;
      && GoodChunks(raw, |m.data|)
      && e.pixels == ChunkAt(m.data, raw, 0) + (if |raw.items| == 2 then ChunkAt(m.data, raw, 1) else [])
      && e.rowstride == p.rowstride
      && e.format == (if p.options.rgbFormat != "" then p.options.rgbFormat else "RGB")
  {
    PaintedExact(p, windows, m, c, 0);
    ChunkBytesInOrder(m.data, RawChunks(p));
    hide GoodChunks, ChunkBytes, ChunksOf, Cursor, Paintable;
  }

  /** The bytes a descriptor [offset, length] stands for. */
  function ChunkAt(data: seq<byte>, raw: Value, k: nat): seq<byte>
    requires GoodChunks(raw, |data|) && k < |raw.items|
  {
    data[raw.items[k].items[0].n..][..raw.items[k].items[1].n]
  }

  lemma SliceAt(data: seq<byte>, raw: Value, k: nat)
    requires GoodChunks(raw, |data|) && k < |raw.items|
    ensures var chunk := ChunksOf(raw, |data|)[k];
      chunk.offset + chunk.length <= |data| && ChunkAt(data, raw, k) == data[chunk.offset..chunk.offset + chunk.length]
  {
  }

  lemma OneOrTwoChunks(data: seq<byte>, chunks: seq<Chunk>)
    requires 1 <= |chunks| <= 2 && forall i :: 0 <= i < |chunks| ==> chunks[i].offset + chunks[i].length <= |data|
    ensures ChunkBytes(data, chunks) == data[chunks[0].offset..chunks[0].offset + chunks[0].length]
      + if |chunks| == 2 then data[chunks[1].offset..chunks[1].offset + chunks[1].length] else []
  {
    assert chunks[..0] == [] && chunks[..|chunks|] == chunks;
    NoChunk(data);
    hide ChunkBytes;
    NextChunk(data, chunks, 0);
    if |chunks| == 2 {
      NextChunk(data, chunks, 1);
    }
  }

  lemma ChunkBytesInOrder(data: seq<byte>, raw: Value)
    requires GoodChunks(raw, |data|)
    ensures forall i :: 0 <= i < |ChunksOf(raw, |data|)| ==> ChunksOf(raw, |data|)[i].offset + ChunksOf(raw, |data|)[i].length <= |data|
    ensures ChunkBytes(data, ChunksOf(raw, |data|)) == ChunkAt(data, raw, 0) + if |raw.items| == 2 then ChunkAt(data, raw, 1) else []
  {
    ChunksInside(raw, |data|);
    SliceAt(data, raw, 0);
    if |raw.items| == 2 {
      SliceAt(data, raw, 1);
    }
    hide GoodChunks, ChunkBytes, ChunkAt, ChunkOf;
    OneOrTwoChunks(data, ChunksOf(raw, |data|));
  }

  /** What the acknowledgement says: the packet's width and height; how long painting
      took, at least 1; -2 if and only if the window is missing and the pixels could be
      read, which are only looked at before the window if they are in the shared memory;
      and -1 in all other cases. */
  lemma AckExact(p: Packet, windows: set<int>, m: Memory, c: Context)
    ensures var es := Effects(p, windows, m, c);
      var ack := es[|es| - 1];
      && ack.Acked? && ack.width == p.width && ack.height == p.height
      && (ack.decodeTime > 0 <==> p.wid in windows && Paintable(p, m, c) && c.painted)
      && (ack.decodeTime > 0 ==> ack.decodeTime == if c.elapsed < 1 then 1 else c.elapsed)
      && (ack.decodeTime == -2 <==> p.wid !in windows && (p.coding == "mmap" ==> InMemory(p, m)))
      && (ack.decodeTime <= 0 ==> ack.decodeTime == -1 || ack.decodeTime == -2)
  {
    PaintableExact(p, m, c);
    hide Pixels, Paintable, InMemory, Cursor;
  }

  /** After a draw whose pixels were in the shared memory, the server reads the end of the
      last chunk in its header; everything else is as it was. */
  lemma CursorRead(p: Packet, m: Memory)
    requires m.Memory? ==> |m.data| < 0x1_0000_0000
    ensures var t := MemoryAfter(p, m);
      if p.coding == "mmap" && m.Memory? && m.enabled && GoodChunks(RawChunks(p), |m.data|) then
        var last := RawChunks(p).items[|RawChunks(p).items| - 1].items;
        && t.Memory? && t.enabled && |t.data| == |m.data| >= HEADER_SIZE && t.data[4..] == m.data[4..]
        && FromLittleEndian(t.data[..4]) == last[0].n + last[1].n
      else t == m
  {
    if InMemory(p, m) {
      ChunksInside(RawChunks(p), |m.data|);
      var end := End(ChunksOf(RawChunks(p), |m.data|));
      hide LittleEndian, FromLittleEndian, GoodChunks;
      Pow256Values();
      LittleEndianRoundTrip(end, 4);
      assert MemoryAfter(p, m).data[..4] == LittleEndian(end, 4);
    }
  }

  // ---- the handler -------------------------------------------------------------------

  class Client {
    var mmap: Area?
    var windows: set<int>
    var log: seq<Effect>

    constructor (mmap: Area?, windows: set<int>)
      ensures this.mmap == mmap && this.windows == windows && log == []
    {
      this.mmap, this.windows, log := mmap, windows, [];
    }

    ghost function Shared(): Memory
      reads this, mmap, if mmap == null then {} else {mmap.data}
    {
      if mmap == null then NoMemory else Memory(mmap.enabled, mmap.data[..])
    }

    /** Gives the pixels back, if that was not done yet. */
    method ReleasePixels(release: Release?)
      requires release != null ==> release.data.Length >= HEADER_SIZE
      modifies `log
      modifies if release == null then {} else {release, release.data}
      ensures release != null ==> release.released
      ensures log == old(log) + if release != null && !old(release.released) then [Published(release.end % 0x1_0000_0000)] else []
      ensures release != null ==>
        release.data[..] == if old(release.released) then old(release.data[..])
                            else LittleEndian(release.end % 0x1_0000_0000, 4) + old(release.data[4..])
    {
      if release != null {
        var before := release.released;
        release.Call();
        if !before {
          log := log + [Published(release.end % 0x1_0000_0000)];
        }
      }
    }

    method Ack(p: Packet, release: Release?, decodeTime: int)
      requires release != null ==> release.data.Length >= HEADER_SIZE
      modifies `log
      modifies if release == null then {} else {release, release.data}
      ensures release != null ==> release.released
      ensures log == old(log) + (if release != null && !old(release.released) then [Published(release.end % 0x1_0000_0000)] else [])
                     + [Acked(p.sequence, p.wid, p.width, p.height, decodeTime)]
      ensures release != null ==>
        release.data[..] == if old(release.released) then old(release.data[..])
                            else LittleEndian(release.end % 0x1_0000_0000, 4) + old(release.data[4..])
    {
      ReleasePixels(release);
      log := log + [Acked(p.sequence, p.wid, p.width, p.height, decodeTime)];
    }

    method HandleDraw(p: Packet, c: Context)
      modifies `log
      modifies if mmap == null then {} else {mmap.data}
      ensures log == old(log) + Effects(p, windows, old(Shared()), c)
      ensures Shared() == MemoryAfter(p, old(Shared()))
    {
      hide GoodChunks, ChunksOf, ChunkBytes, LittleEndian;
      var release: Release? := null;
      var pixels: seq<byte> := [];
      if p.coding == "mmap" {
        if mmap == null {
          Ack(p, release, DECODE_ERROR);
          return;
        }
        var chunks := p.options.chunks;
        if chunks == Nil {
          chunks := p.pixels;
        }
        var read := mmap.ReadChunks(chunks);
        if read.Err? {
          Ack(p, release, DECODE_ERROR);
          return;
        }
        pixels, release := read.value.0, read.value.1;
      }
      HandlePixels(p, c, pixels, release);
      ReleasePixels(release);
    }

    /** The rest of the handler, once pixels in the shared memory were found. */
    method HandlePixels(p: Packet, c: Context, found: seq<byte>, release: Release?)
      requires release != null ==> release.data.Length >= HEADER_SIZE && !release.released
      requires release != null <==> InMemory(p, Shared())
      requires release != null ==> release.data == mmap.data && found == MemoryPixels(p, Shared())
      requires release != null ==> release.end % 0x1_0000_0000 == Cursor(p, Shared())
      requires p.coding == "mmap" ==> release != null
      modifies `log
      modifies if release == null then {} else {release, release.data}
      ensures release != null ==> release.released
      ensures log == old(log) + Effects(p, windows, old(Shared()), c)
      ensures Shared() == MemoryAfter(p, old(Shared()))
    {
      hide GoodChunks, ChunksOf, ChunkBytes, LittleEndian;
      var pixels, rowstride := found, p.rowstride;
      if p.wid !in windows {
        Ack(p, release, DECODE_NOT_FOUND);
        return;
      }
      if p.coding != "mmap" {
        var payload := PayloadBytes(p.pixels);
        if payload.None? {
          Ack(p, release, DECODE_ERROR);
          return;
        }
        pixels := payload.value;
      }
      var format := "";
      if p.coding == "mmap" {
        format := p.options.rgbFormat;
        if format == "" {
          format := "RGB";
        }
        if rowstride <= 0 || p.height <= 0 || rowstride > |pixels| / p.height {
          Ack(p, release, DECODE_ERROR);
          return;
        }
      } else if IsRgb(p.coding) {
        if p.options.lz4 || p.options.zstd {
          Ack(p, release, DECODE_ERROR);
          return;
        }
        format := p.options.rgbFormat;
        if format == "" {
          format := if p.coding == "rgb24" then "RGB" else if p.coding == "rgb32" then "RGBX" else "";
        }
      } else if IsImage(p.coding) {
        if c.decoded.None? {
          Ack(p, release, DECODE_ERROR);
          return;
        }
        pixels, rowstride := c.decoded.value.0, c.decoded.value.1;
        format := "BGRX";
      } else {
        Ack(p, release, DECODE_ERROR);
        return;
      }
      log := log + [Painted(p.wid, p.x, p.y, p.width, p.height, pixels, rowstride, format, c.painted)];
      if !c.painted {
        Ack(p, release, DECODE_ERROR);
        return;
      }
      var elapsed := c.elapsed;
      if elapsed <= 0 {
        elapsed := 1;
      }
      Ack(p, release, elapsed);
    }
  }

  // ---- runs --------------------------------------------------------------------------

  /** A draw as it was met: the packet, the windows and the memory there were, and what
      came of decoding and painting. */
  datatype Draw = Draw(packet: Packet, windows: set<int>, memory: Memory, context: Context)

  /** What a run of draws does, in order. */
  function RunEffects(ds: seq<Draw>): seq<Effect> {
    if ds == [] then []
    else Effects(ds[0].packet, ds[0].windows, ds[0].memory, ds[0].context) + RunEffects(ds[1..])
  }

  /** Over a run every draw is acknowledged once, in the order of arrival. */
  lemma {:induction false} EveryDrawAcked(ds: seq<Draw>)
    ensures var acks := Acks(RunEffects(ds));
      |acks| == |ds| && forall i :: 0 <= i < |ds| ==> acks[i].Acked? && acks[i].sequence == ds[i].packet.sequence
  {
    hide Effects;
    if ds == [] {
    } else {
      var d := ds[0];
      OneHonestAck(d.packet, d.windows, d.memory, d.context);
      AcksAppend(Effects(d.packet, d.windows, d.memory, d.context), RunEffects(ds[1..]));
      EveryDrawAcked(ds[1..]);
    }
  }
}
