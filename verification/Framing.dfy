/** How packets are framed on a stream: their headers, the out-of-band chunks that
    belong to the packet after them, and what a reader makes of the bytes. */
module Framing {
  import opened Bytes
  import opened Rencodeplus

  const HEADER_SIZE: int := 8
  const MAGIC: byte := 80 // 'P'
  const FLAG_FLUSH: byte := 0x08
  const FLAG_RENCODEPLUS: byte := 0x10
  const COMPRESSION_LZ4: byte := 0x10
  const COMPRESSION_BROTLI: byte := 0x40
  const COMPRESSION_ZSTD: byte := 0x80
  const MAX_PAYLOAD: int := 64 * 1024 * 1024
  const MAX_INDEX: int := 15
  const MAX_CHUNKS: int := 3

  datatype ReadError =
    | BadMagic | ZeroLength | TooLong | BadIndex
    | BrokenHeader | BrokenPayload | PendingChunks
    | Zstd | Brotli | Zlib | ShortLz4 | HugeLz4 | BadLz4 | WrongLz4Size
    | EmptyChunk | DuplicateChunk | TooManyChunks | ChunksTooLarge
    | PacketTooLarge | IndexOutside | FullPlaceholder
    | NotRencodeplus | Undecodable(why: DecodeError) | NotAList

  predicate HasBit(b: byte, bit: byte)
    requires bit != 0
  {
    (b / bit) % 2 == 1
  }

  // ---- headers -------------------------------------------------------------

  datatype Header = Header(flags: byte, compression: byte, index: byte, length: nat)

  function HeaderBytes(h: Header): (s: seq<byte>)
    requires h.length < 0x1_0000_0000
    ensures |s| == HEADER_SIZE
  {
    Pow256Values();
    [MAGIC, h.flags, h.compression, h.index] + BigEndian(h.length, 4)
  }

  /** The header of an outgoing packet; the length is cut to 32 bits. */
  function EncodeHeader(flags: byte, payloadLen: nat): seq<byte> {
    HeaderBytes(Header(flags, 0, 0, payloadLen % 0x1_0000_0000))
  }

  function ParseHeader(b: seq<byte>): (r: Result<Header, ReadError>)
    requires |b| == HEADER_SIZE
    ensures r.Ok? ==> 0 < r.value.length <= MAX_PAYLOAD && r.value.index <= MAX_INDEX
  {
    if b[0] != MAGIC then Err(BadMagic) else
      var length := FromBigEndian(b[4..]);
      if length == 0 then Err(ZeroLength)
      else if length > MAX_PAYLOAD then Err(TooLong)
      else if b[3] > MAX_INDEX then Err(BadIndex)
      else Ok(Header(b[1], b[2], b[3], length))
  }

  lemma HeaderRoundTrip(h: Header)
    requires h.length < 0x1_0000_0000
    ensures ParseHeader(HeaderBytes(h)) ==
      if h.length == 0 then Err(ZeroLength)
      else if h.length > MAX_PAYLOAD then Err(TooLong)
      else if h.index > MAX_INDEX then Err(BadIndex)
      else Ok(h)
  {
    Pow256Values();
    BigEndianRoundTrip(h.length, 4);
    assert HeaderBytes(h)[4..] == BigEndian(h.length, 4);
  }

  /** Only the eight bytes of a header are parsed as that header; they start with 'P',
      and nothing else is blamed on the first byte. */
  lemma HeaderWritten(b: seq<byte>)
    requires |b| == HEADER_SIZE
    ensures ParseHeader(b).Ok? ==> ParseHeader(b).value.length < 0x1_0000_0000 && HeaderBytes(ParseHeader(b).value) == b && b[0] == 80
    ensures ParseHeader(b) == Err(BadMagic) <==> b[0] != 80
  {
    if ParseHeader(b).Ok? {
      Pow256Values();
      ReadBigEndian(b[4..]);
      assert b[..4] == [b[0], b[1], b[2], b[3]] && b == b[..4] + b[4..];
    }
  }

  // ---- compression ---------------------------------------------------------

  /** lz4's block decoder: the bytes a block expands to, given room for so many. */
  type Inflate = (seq<byte>, nat) -> Option<seq<byte>>

  function LittleEndian32(s: seq<byte>): nat
    requires |s| == 4
  {
    FromBigEndian([s[3], s[2], s[1], s[0]])
  }

  function Decompress(compression: byte, payload: seq<byte>, inflate: Inflate): (r: Result<seq<byte>, ReadError>)
    ensures r.Ok? ==> |r.value| <= MAX_PAYLOAD
  {
    if !HasBit(compression, COMPRESSION_LZ4) then
      Err(if HasBit(compression, COMPRESSION_ZSTD) then Zstd
          else if HasBit(compression, COMPRESSION_BROTLI) then Brotli else Zlib)
    else if |payload| < 4 then Err(ShortLz4) else
      var size := LittleEndian32(payload[..4]);
      if size > MAX_PAYLOAD then Err(HugeLz4) else
        match inflate(payload[4..], size)
        case None => Err(BadLz4)
        case Some(out) => if |out| != size then Err(WrongLz4Size) else Ok(out)
  }

  /** The flag and algorithm bits, by the numbers they count in. */
  lemma BitExact(b: byte)
    ensures HasBit(b, 0x08) <==> b % 16 >= 8
    ensures HasBit(b, 0x10) <==> b % 32 >= 16
    ensures HasBit(b, 0x40) <==> b % 128 >= 64
    ensures HasBit(b, 0x80) <==> b >= 128
  {
  }

  lemma LittleEndianSum(s: seq<byte>)
    requires |s| == 4
    ensures LittleEndian32(s) == Sum(s[0], s[1], s[2], s[3])
  {
    var r := [s[3], s[2], s[1], s[0]];
    var r3, r2, r1 := r[..3], r[..2], r[..1];
    assert r3[..2] == r2 && r2[..1] == r1 && r1[..0] == [];
    assert FromBigEndian(r1) == s[3];
    assert FromBigEndian(r2) == FromBigEndian(r1) * 256 + s[2];
    assert FromBigEndian(r3) == FromBigEndian(r2) * 256 + s[1];
  }

  /** Four digits to the base 256, the lowest first. */
  function Sum(a: nat, b: nat, c: nat, d: nat): nat {
    a + 0x100 * b + 0x1_0000 * c + 0x100_0000 * d
  }

  /** A compressed payload is inflated if and only if it names lz4, by the fifth bit of
      its compression byte, has a size of at most 64 MiB in its first four bytes, lowest
      first, and the block behind them gives that many bytes; else it is refused, for the
      algorithm it names first. */
  lemma DecompressExact(compression: byte, payload: seq<byte>, inflate: Inflate)
    ensures var r := Decompress(compression, payload, inflate);
      if compression % 32 < 16 then
        r == Err(if compression >= 128 then Zstd else if compression % 128 >= 64 then Brotli else Zlib)
      else if |payload| < 4 then r == Err(ShortLz4)
      else
        var size := Sum(payload[0], payload[1], payload[2], payload[3]);
        && (size > 64 * 1024 * 1024 ==> r == Err(HugeLz4))
        && (size <= 64 * 1024 * 1024 ==>
              && (r == Err(BadLz4) <==> inflate(payload[4..], size).None?)
              && (r.Ok? <==> inflate(payload[4..], size).Some? && |inflate(payload[4..], size).value| == size)
              && (r.Ok? ==> inflate(payload[4..], size) == Some(r.value))
              && (r.Err? ==> r.error == BadLz4 || r.error == WrongLz4Size))
  {
    BitExact(compression);
    if |payload| >= 4 {
      LittleEndianSum(payload[..4]);
    }
    hide HasBit, LittleEndian32;
  }

  // ---- pending chunks ------------------------------------------------------

  datatype Chunks = Chunks(packets: map<byte, GoBytes>, size: nat)

  const NO_CHUNKS: Chunks := Chunks(map[], 0)

  /** The bytes held at indexes i to 15. */
  function TotalFrom(packets: map<byte, GoBytes>, i: nat): nat
    decreases MAX_INDEX + 1 - i
  {
    if i > MAX_INDEX then 0
    else (if i in packets then |packets[i]| else 0) + TotalFrom(packets, i + 1)
  }

  ghost predicate ValidChunks(s: Chunks) {
    && |s.packets| <= MAX_CHUNKS
    && (forall i :: i in s.packets ==> 1 <= i <= MAX_INDEX && s.packets[i] != [])
    && s.size == TotalFrom(s.packets, 1) <= MAX_PAYLOAD
  }

  function AddChunk(s: Chunks, index: byte, payload: seq<byte>): Result<Chunks, ReadError> {
    if payload == [] then Err(EmptyChunk)
    else if index in s.packets then Err(DuplicateChunk)
    else if |s.packets| >= MAX_CHUNKS then Err(TooManyChunks)
    else if |payload| > MAX_PAYLOAD - s.size then Err(ChunksTooLarge)
    else Ok(Chunks(s.packets[index := payload], s.size + |payload|))
  }

  predicate IsPlaceholder(v: Value) {
    v == Binary([]) || v == Text([])
  }

  /** Every pending chunk has an empty element of the packet to go to. */
  predicate Fits(s: Chunks, packet: seq<Value>) {
    forall i: byte :: 1 <= i <= MAX_INDEX && i in s.packets ==> i < |packet| && IsPlaceholder(packet[i])
  }

  /** The packet with the pending chunks in it, and nothing else changed. */
  function Spliced(s: Chunks, packet: seq<Value>): seq<Value> {
    seq(|packet|, i requires 0 <= i < |packet| =>
      if 1 <= i <= MAX_INDEX && i in s.packets then Binary(s.packets[i]) else packet[i])
  }

  /** Why the first chunk that does not fit, from index i on, does not. */
  function Misfit(s: Chunks, packet: seq<Value>, i: nat): ReadError
    decreases MAX_INDEX + 1 - i
  {
    if i > MAX_INDEX then FullPlaceholder
    else if i in s.packets && i >= |packet| then IndexOutside
    else if i in s.packets && !IsPlaceholder(packet[i]) then FullPlaceholder
    else Misfit(s, packet, i + 1)
  }

  function ApplyChunks(s: Chunks, packet: seq<Value>, mainSize: nat): Result<seq<Value>, ReadError> {
    if |s.packets| == 0 then Ok(packet)
    else if mainSize > MAX_PAYLOAD - s.size then Err(PacketTooLarge)
    else if !Fits(s, packet) then Err(Misfit(s, packet, 1))
    else Ok(Spliced(s, packet))
  }

  // ---- the reader ----------------------------------------------------------

  /** What a frame that has arrived makes the reader do. */
  datatype Turn = Stop(error: ReadError) | Hold(chunks: Chunks) | Deliver(packet: seq<Value>)

  function Take(flags: byte, index: byte, body: seq<byte>, chunks: Chunks): Turn {
    if index != 0 then
      match AddChunk(chunks, index, body) case Err(e) => Stop(e) case Ok(s) => Hold(s)
    else if !HasBit(flags, FLAG_RENCODEPLUS) then Stop(NotRencodeplus)
    else match Decode(body)
      case Err(e) => Stop(Undecodable(e))
      case Ok(v) =>
        if !v.List? then Stop(NotAList) else
          match ApplyChunks(chunks, v.items, |body|) case Err(e) => Stop(e) case Ok(p) => Deliver(p)
  }

  /** How the stream stops after its last byte: at an end of file, or on an error. */
  datatype Ending = Eof | Broken

  /** How reading ended: Clean is the nil error. */
  datatype End = Clean | Failed(error: ReadError)

  datatype Outcome = Outcome(packets: seq<seq<Value>>, end: End)

  function ReadAll(stream: seq<byte>, chunks: Chunks, ending: Ending, inflate: Inflate): Outcome
    decreases |stream|
  {
    if stream == [] && ending == Eof then
      Outcome([], if |chunks.packets| != 0 then Failed(PendingChunks) else Clean)
    else if |stream| < HEADER_SIZE then Outcome([], Failed(BrokenHeader))
    else match ParseHeader(stream[..HEADER_SIZE])
      case Err(e) => Outcome([], Failed(e))
      case Ok(h) =>
        var rest := stream[HEADER_SIZE..];
        if |rest| < h.length then Outcome([], Failed(BrokenPayload)) else
          var body := if h.compression == 0 then Ok(rest[..h.length])
                      else Decompress(h.compression, rest[..h.length], inflate);
          if body.Err? then Outcome([], Failed(body.error)) else
            match Take(h.flags, h.index, body.value, chunks)
            case Stop(e) => Outcome([], Failed(e))
            case Hold(s) => ReadAll(rest[h.length..], s, ending, inflate)
            case Deliver(p) =>
              var o := ReadAll(rest[h.length..], NO_CHUNKS, ending, inflate);
              Outcome([p] + o.packets, o.end)
  }
}
