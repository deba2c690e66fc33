/** End to end: what a sender frames, chunk by chunk, the reader delivers; and
    what the reader keeps up on any byte stream at all. */
module FramingProofs {
  import opened Bytes
  import opened Rencodeplus
  import opened RencodeplusProofs
  import opened RencodeplusNormal
  import opened Framing

  // ---- pending chunks, whatever arrives ------------------------------------

  lemma {:induction false} TotalWith(m: map<byte, GoBytes>, index: byte, payload: GoBytes, i: nat)
    requires index !in m && 1 <= index <= MAX_INDEX
    ensures TotalFrom(m[index := payload], i) == TotalFrom(m, i) + if i <= index then |payload| else 0
    decreases MAX_INDEX + 1 - i
  {
    if i > MAX_INDEX {
    } else {
      TotalWith(m, index, payload, i + 1);
    }
  }

  lemma {:induction false} TotalEmpty(i: nat)
    ensures TotalFrom(map[], i) == 0
    decreases MAX_INDEX + 1 - i
  {
    if i > MAX_INDEX {
    } else {
      TotalEmpty(i + 1);
    }
  }

  lemma NoChunksValid()
    ensures ValidChunks(NO_CHUNKS)
  {
    TotalEmpty(1);
  }

  /** Whatever frame arrives, the pending chunks stay within their limits: at most
      three, at indexes 1 to 15, none empty, their sizes adding up to at most
      64 MiB. */
  lemma TakeKeepsValid(flags: byte, index: byte, body: seq<byte>, chunks: Chunks)
    requires ValidChunks(chunks) && index <= MAX_INDEX
    ensures Take(flags, index, body, chunks).Hold? ==> ValidChunks(Take(flags, index, body, chunks).chunks)
  {
    if index != 0 && AddChunk(chunks, index, body).Ok? {
      TotalWith(chunks.packets, index, body, 1);
    }
  }

  /** A delivered packet holds every pending chunk at its own index, where the main
      packet had an empty placeholder, and is the main packet everywhere else. */
  lemma DeliveredPacket(flags: byte, index: byte, body: seq<byte>, chunks: Chunks)
    requires ValidChunks(chunks)
    requires Take(flags, index, body, chunks).Deliver?
    ensures index == 0 && Decode(body).Ok? && Decode(body).value.List?
    ensures var packet, main := Take(flags, index, body, chunks).packet, Decode(body).value.items;
      && |packet| == |main|
      && (forall i :: i in chunks.packets ==> i < |packet| && packet[i] == Binary(chunks.packets[i]) && (main[i] == Binary([]) || main[i] == Text([])))
      && (forall i :: 0 <= i < |packet| && i !in chunks.packets ==> packet[i] == main[i])
  {
    hide Decode;
    if |chunks.packets| == 0 {
      assert chunks.packets == map[];
    }
  }

  /** And it is delivered if and only if each pending chunk has such a placeholder to go
      to, and all of it together stays within 64 MiB. */
  lemma DeliveredExactly(flags: byte, body: seq<byte>, items: seq<Value>, chunks: Chunks)
    requires ValidChunks(chunks) && flags % 32 >= 16 && Decode(body) == Ok(List(items))
    ensures Take(flags, 0, body, chunks).Deliver? <==>
      || chunks.packets == map[]
      || (&& |body| + chunks.size <= 64 * 1024 * 1024
          && forall i :: i in chunks.packets ==> i < |items| && (items[i] == Binary([]) || items[i] == Text([])))
  {
    hide Decode, HasBit;
    BitExact(flags);
    if |chunks.packets| == 0 {
      assert chunks.packets == map[];
    }
  }

  // ---- reading part of a stream ----------------------------------------------

  /** Where the reader is: the packets it has delivered, the bytes it has not looked at,
      and the chunks it holds. */
  datatype Reading = Reading(delivered: seq<seq<Value>>, rest: seq<byte>, chunks: Chunks)

  /** The reader after one frame; None if the stream or the connection ends there. */
  function ReadOne(r: Reading, inflate: Inflate): Option<Reading> {
    if |r.rest| < HEADER_SIZE then None
    else
      var parsed := ParseHeader(r.rest[..HEADER_SIZE]);
      if parsed.Err? || |r.rest| - HEADER_SIZE < parsed.value.length then None
      else
        var h, after := parsed.value, r.rest[HEADER_SIZE..];
        var body := if h.compression == 0 then Ok(after[..h.length]) else Decompress(h.compression, after[..h.length], inflate);
        if body.Err? then None
        else
          var turn := Take(h.flags, h.index, body.value, r.chunks);
          if turn.Stop? then None
          else if turn.Hold? then Some(Reading(r.delivered, after[h.length..], turn.chunks))
          else Some(Reading(r.delivered + [turn.packet], after[h.length..], NO_CHUNKS))
  }

  /** The reader after n frames of a stream. */
  function ReadFrames(stream: seq<byte>, inflate: Inflate, n: nat): Option<Reading> {
    if n == 0 then Some(Reading([], stream, NO_CHUNKS))
    else
      var before := ReadFrames(stream, inflate, n - 1);
      if before.None? then None else ReadOne(before.value, inflate)
  }

  lemma ReadOneGoesOn(r: Reading, ending: Ending, inflate: Inflate)
    requires ValidChunks(r.chunks) && ReadOne(r, inflate).Some?
    ensures var s := ReadOne(r, inflate).value;
      && ValidChunks(s.chunks)
      && Outcome(r.delivered + ReadAll(r.rest, r.chunks, ending, inflate).packets, ReadAll(r.rest, r.chunks, ending, inflate).end)
         == Outcome(s.delivered + ReadAll(s.rest, s.chunks, ending, inflate).packets, ReadAll(s.rest, s.chunks, ending, inflate).end)
  {
    hide Take, ParseHeader, Decompress, ReadAll, ValidChunks;
    ReadCases(r.rest, r.chunks, ending, inflate);
    var h, after := ParseHeader(r.rest[..HEADER_SIZE]).value, r.rest[HEADER_SIZE..];
    var body := if h.compression == 0 then Ok(after[..h.length]) else Decompress(h.compression, after[..h.length], inflate);
    var turn := Take(h.flags, h.index, body.value, r.chunks);
    TakeKeepsValid(h.flags, h.index, body.value, r.chunks);
    NoChunksValid();
    if turn.Deliver? {
      var o := ReadAll(after[h.length..], NO_CHUNKS, ending, inflate);
      assert r.delivered + ([turn.packet] + o.packets) == r.delivered + [turn.packet] + o.packets;
    }
  }

  /** On any stream, however malformed, and after any number of frames: the chunks held
      are within their limits, and reading goes on from there. */
  lemma {:induction false} PendingValid(stream: seq<byte>, ending: Ending, inflate: Inflate, n: nat)
    requires ReadFrames(stream, inflate, n).Some?
    ensures var r := ReadFrames(stream, inflate, n).value;
      && ValidChunks(r.chunks)
      && ReadAll(stream, NO_CHUNKS, ending, inflate)
         == Outcome(r.delivered + ReadAll(r.rest, r.chunks, ending, inflate).packets, ReadAll(r.rest, r.chunks, ending, inflate).end)
  {
    hide ReadOne, ReadAll, ValidChunks;
    if n == 0 {
      NoChunksValid();
      assert [] + ReadAll(stream, NO_CHUNKS, ending, inflate).packets == ReadAll(stream, NO_CHUNKS, ending, inflate).packets;
    } else {
      PendingValid(stream, ending, inflate, n - 1);
      ReadOneGoesOn(ReadFrames(stream, inflate, n - 1).value, ending, inflate);
    }
  }

  lemma ReadOneStops(r: Reading, ending: Ending, inflate: Inflate)
    requires ReadOne(r, inflate).None?
    ensures ReadAll(r.rest, r.chunks, ending, inflate).packets == []
  {
    hide Take, ParseHeader, Decompress, ReadAll;
    ReadCases(r.rest, r.chunks, ending, inflate);
  }

  lemma ReadOneShorter(r: Reading, inflate: Inflate)
    requires ReadOne(r, inflate).Some?
    ensures |ReadOne(r, inflate).value.rest| < |r.rest|
  {
    hide Take, ParseHeader, Decompress;
  }

  /** After k frames the reader stops, and has delivered all it does. */
  ghost predicate StopsAfter(stream: seq<byte>, ending: Ending, inflate: Inflate, k: nat) {
    && ReadFrames(stream, inflate, k).Some?
    && ReadOne(ReadFrames(stream, inflate, k).value, inflate).None?
    && ReadFrames(stream, inflate, k).value.delivered == ReadAll(stream, NO_CHUNKS, ending, inflate).packets
  }

  lemma StopsThere(stream: seq<byte>, ending: Ending, inflate: Inflate, n: nat)
    requires ReadFrames(stream, inflate, n).Some? && ReadOne(ReadFrames(stream, inflate, n).value, inflate).None?
    ensures StopsAfter(stream, ending, inflate, n)
  {
    hide ReadOne, ReadAll, ReadFrames, ValidChunks;
    var r := ReadFrames(stream, inflate, n).value;
    PendingValid(stream, ending, inflate, n);
    ReadOneStops(r, ending, inflate);
    assert r.delivered + [] == r.delivered;
  }

  lemma NextFrame(stream: seq<byte>, inflate: Inflate, n: nat)
    requires ReadFrames(stream, inflate, n).Some?
    ensures ReadFrames(stream, inflate, n + 1) == ReadOne(ReadFrames(stream, inflate, n).value, inflate)
  {
    hide ReadOne;
  }

  /** On any stream the reader stops after some number of frames. */
  lemma {:induction false} ReadingEnds(stream: seq<byte>, ending: Ending, inflate: Inflate, n: nat)
    requires ReadFrames(stream, inflate, n).Some?
    ensures exists k: nat :: StopsAfter(stream, ending, inflate, k)
    decreases |ReadFrames(stream, inflate, n).value.rest|
  {
    hide *;
    if ReadOne(ReadFrames(stream, inflate, n).value, inflate).None? {
      StopsThere(stream, ending, inflate, n);
    } else {
      ReadOneShorter(ReadFrames(stream, inflate, n).value, inflate);
      NextFrame(stream, inflate, n);
      ReadingEnds(stream, ending, inflate, n + 1);
    }
  }

  // ---- streams that end cleanly --------------------------------------------

  /** The stream cut into frames by their length fields alone; None if it does not
      consist of whole frames. */
  function Frames(stream: seq<byte>): Option<seq<(Header, seq<byte>)>> {
    if stream == [] then Some([])
    else if |stream| < HEADER_SIZE then None
    else match ParseHeader(stream[..HEADER_SIZE])
      case Err(_) => None
      case Ok(h) =>
        var rest := stream[HEADER_SIZE..];
        if |rest| < h.length then None else
          match Frames(rest[h.length..])
          case None => None
          case Some(fs) => Some([(h, rest[..h.length])] + fs)
  }

  function MainFrames(fs: seq<(Header, seq<byte>)>): nat {
    if fs == [] then 0 else (if fs[0].0.index == 0 then 1 else 0) + MainFrames(fs[1..])
  }

  /** A nil error means that the stream ended between frames, the last of which
      completed a packet, and that each main frame was delivered. */
  lemma {:induction false} CleanEnd(stream: seq<byte>, chunks: Chunks, ending: Ending, inflate: Inflate)
    requires ReadAll(stream, chunks, ending, inflate).end == Clean
    ensures ending == Eof
    ensures Frames(stream).Some?
    ensures |ReadAll(stream, chunks, ending, inflate).packets| == MainFrames(Frames(stream).value)
    ensures if stream == [] then |chunks.packets| == 0
            else Frames(stream).value != [] && Frames(stream).value[|Frames(stream).value| - 1].0.index == 0
    decreases |stream|
  {
    hide Take, Decompress, ParseHeader;
    if stream == [] {
    } else {
      var h := ParseHeader(stream[..HEADER_SIZE]).value;
      var rest := stream[HEADER_SIZE..];
      var payload := rest[..h.length];
      var body := if h.compression == 0 then Ok(payload) else Decompress(h.compression, payload, inflate);
      var turn := Take(h.flags, h.index, body.value, chunks);
      var after := if turn.Hold? then turn.chunks else NO_CHUNKS;
      CleanEnd(rest[h.length..], after, ending, inflate);
      var fs := Frames(rest[h.length..]).value;
      assert Frames(stream) == Some([(h, payload)] + fs);
      assert ([(h, payload)] + fs)[1..] == fs;
      TurnByIndex(h.flags, h.index, body.value, chunks);
    }
  }

  lemma TurnByIndex(flags: byte, index: byte, body: seq<byte>, chunks: Chunks)
    ensures index != 0 ==> !Take(flags, index, body, chunks).Deliver?
    ensures index == 0 ==> !Take(flags, index, body, chunks).Hold?
    ensures Take(flags, index, body, chunks).Hold? ==> |Take(flags, index, body, chunks).chunks.packets| != 0
  {
    hide Decode;
    if index != 0 && AddChunk(chunks, index, body).Ok? {
      assert index in AddChunk(chunks, index, body).value.packets;
    }
  }

  // ---- the sender ----------------------------------------------------------

  /** One frame to send. With a compression byte of 0, body goes out as it is, or else as
      an lz4 block. */
  datatype Frame = Frame(flags: byte, compression: byte, index: byte, body: seq<byte>)

  /** The fifth bit, counted from the lowest, is set: a byte that names lz4, with any
      level and any other bits. */
  predicate SaysLz4(compression: byte) {
    compression % 32 >= 16
  }

  type Deflate = seq<byte> -> seq<byte>

  /** The lz4 block codec, taken for a pair of inverses. */
  ghost predicate Inverse(deflate: Deflate, inflate: Inflate) {
    forall b :: |b| <= MAX_PAYLOAD ==> inflate(deflate(b), |b|) == Some(b)
  }

  function Store(b: seq<byte>): seq<byte> { b }

  function Load(b: seq<byte>, n: nat): Option<seq<byte>> { Some(b) }

  /** There are such codecs: one that stores the bytes as they are, for instance. */
  lemma StoringIsInverse()
    ensures Inverse(Store, Load)
  {
  }

  function SizePrefix(n: nat): (p: seq<byte>)
    requires n < 0x1_0000_0000
    ensures |p| == 4 && LittleEndian32(p) == n
  {
    Pow256Values();
    var size := BigEndian(n, 4);
    BigEndianRoundTrip(n, 4);
    assert [size[0], size[1], size[2], size[3]] == size;
    [size[3], size[2], size[1], size[0]]
  }

  function Payload(f: Frame, deflate: Deflate): seq<byte> {
    if f.compression != 0 && |f.body| <= MAX_PAYLOAD then SizePrefix(|f.body|) + deflate(f.body) else f.body
  }

  predicate Sized(f: Frame, deflate: Deflate) {
    && 0 < |Payload(f, deflate)| <= MAX_PAYLOAD
    && |f.body| <= MAX_PAYLOAD
    && f.index <= MAX_INDEX
    && (f.compression == 0 || SaysLz4(f.compression))
  }

  function FrameBytes(f: Frame, deflate: Deflate): seq<byte>
    requires Sized(f, deflate)
  {
    HeaderBytes(Header(f.flags, f.compression, f.index, |Payload(f, deflate)|))
    + Payload(f, deflate)
  }

  lemma InflatePayload(f: Frame, deflate: Deflate, inflate: Inflate)
    requires Sized(f, deflate) && Inverse(deflate, inflate) && f.compression != 0
    ensures Decompress(f.compression, Payload(f, deflate), inflate) == Ok(f.body)
  {
    BitExact(f.compression);
    hide HasBit;
    var p := Payload(f, deflate);
    assert p[..4] == SizePrefix(|f.body|) && p[4..] == deflate(f.body);
    assert inflate(deflate(f.body), |f.body|) == Some(f.body);
  }

  /** What reading gives once a frame has made the reader do `turn`. */
  function GoOn(turn: Turn, rest: seq<byte>, ending: Ending, inflate: Inflate): Outcome {
    if turn.Stop? then Outcome([], Failed(turn.error))
    else if turn.Hold? then ReadAll(rest, turn.chunks, ending, inflate)
    else
      var o := ReadAll(rest, NO_CHUNKS, ending, inflate);
      Outcome([turn.packet] + o.packets, o.end)
  }

  /** One turn of the read loop. */
  lemma ReadCases(stream: seq<byte>, chunks: Chunks, ending: Ending, inflate: Inflate)
    ensures stream == [] && ending == Eof ==>
      ReadAll(stream, chunks, ending, inflate) == Outcome([], if |chunks.packets| != 0 then Failed(PendingChunks) else Clean)
    ensures !(stream == [] && ending == Eof) && |stream| < HEADER_SIZE ==>
      ReadAll(stream, chunks, ending, inflate) == Outcome([], Failed(BrokenHeader))
    ensures |stream| >= HEADER_SIZE ==>
      ReadAll(stream, chunks, ending, inflate) ==
        var parsed := ParseHeader(stream[..HEADER_SIZE]);
        if parsed.Err? then Outcome([], Failed(parsed.error)) else
          var h, rest := parsed.value, stream[HEADER_SIZE..];
          if |rest| < h.length then Outcome([], Failed(BrokenPayload)) else
            var body := if h.compression == 0 then Ok(rest[..h.length])
                        else Decompress(h.compression, rest[..h.length], inflate);
            if body.Err? then Outcome([], Failed(body.error))
            else GoOn(Take(h.flags, h.index, body.value, chunks), rest[h.length..], ending, inflate)
  {
    hide Take, ParseHeader, Decompress;
  }

  /** The reader takes a frame's body and goes on behind the frame. */
  lemma ReadFrame(f: Frame, rest: seq<byte>, chunks: Chunks, ending: Ending, deflate: Deflate, inflate: Inflate)
    requires Sized(f, deflate) && Inverse(deflate, inflate)
    ensures ReadAll(FrameBytes(f, deflate) + rest, chunks, ending, inflate)
         == GoOn(Take(f.flags, f.index, f.body, chunks), rest, ending, inflate)
  {
    hide ReadAll, Take, ParseHeader, HeaderBytes, Payload, Decompress, Inverse, GoOn;
    var p := Payload(f, deflate);
    var h := Header(f.flags, f.compression, f.index, |p|);
    var stream := FrameBytes(f, deflate) + rest;
    HeaderRoundTrip(h);
    ReadCases(stream, chunks, ending, inflate);
    assert stream[..HEADER_SIZE] == HeaderBytes(h);
    assert stream[HEADER_SIZE..] == p + rest;
    assert (p + rest)[..|p|] == p && (p + rest)[|p|..] == rest;
    if f.compression != 0 {
      InflatePayload(f, deflate, inflate);
    } else {
      PlainPayload(f, deflate);
    }
  }

  lemma PlainPayload(f: Frame, deflate: Deflate)
    requires f.compression == 0
    ensures Payload(f, deflate) == f.body
  {
  }

  // ---- messages ------------------------------------------------------------

  /** A packet and the way it is sent: the elements at the indexes in `order` go
      ahead of it as chunks, in that order, and leave placeholders behind. */
  datatype Message = Message(
    items: seq<Value>, order: seq<byte>, textHoles: set<byte>,
    chunkFlags: byte, mainFlags: byte, chunkCompression: map<byte, byte>, mainCompression: byte)

  function Hole(m: Message, i: byte): Value {
    if i in m.textHoles then Text([]) else Binary([])
  }

  /** The elements of the main packet. */
  function MainItems(m: Message): seq<Value> {
    seq(|m.items|, i requires 0 <= i < |m.items| =>
      if i <= MAX_INDEX && i in m.order then Hole(m, i) else m.items[i])
  }

  function ChunkData(m: Message, i: byte): GoBytes {
    if i < |m.items| && m.items[i].Binary? then m.items[i].data else []
  }

  function ChunkFrame(m: Message, i: byte): Frame {
    Frame(m.chunkFlags, if i in m.chunkCompression then m.chunkCompression[i] else 0, i, ChunkData(m, i))
  }

  ghost function MainFrame(m: Message): Frame
    requires Encodable(List(MainItems(m)))
  {
    Frame(m.mainFlags, m.mainCompression, 0, Enc(List(MainItems(m))))
  }

  function ChunkBytes(m: Message, k: nat): nat
    requires k <= |m.order|
  {
    if k == 0 then 0 else ChunkBytes(m, k - 1) + |ChunkData(m, m.order[k - 1])|
  }

  /** The chunks are at most three non-empty binary elements at distinct indexes
      1 to 15; the packet can be encoded; everything stays within 64 MiB. */
  ghost predicate Sendable(m: Message, deflate: Deflate) {
    && |m.order| <= MAX_CHUNKS
    && (forall j :: 0 <= j < |m.order| ==>
          && 1 <= m.order[j] <= MAX_INDEX && m.order[j] < |m.items|
          && ChunkData(m, m.order[j]) != []
          && Sized(ChunkFrame(m, m.order[j]), deflate))
    && (forall j, k :: 0 <= j < k < |m.order| ==> m.order[j] != m.order[k])
    && Encodable(List(MainItems(m))) && Shallow(List(MainItems(m)), MAX_DEPTH)
    && HasBit(m.mainFlags, FLAG_RENCODEPLUS)
    && Sized(MainFrame(m), deflate)
    && ChunkBytes(m, |m.order|) + |MainFrame(m).body| <= MAX_PAYLOAD
  }

  lemma ItemsEncodable(m: Message, deflate: Deflate)
    requires Sendable(m, deflate)
    ensures forall i :: 0 <= i < |m.items| ==> Encodable(m.items[i])
  {
    hide Enc, Payload, Shallow;
    forall i | 0 <= i < |m.items| ensures Encodable(m.items[i]) {
      assert Encodable(MainItems(m)[i]);
      if i <= MAX_INDEX && i in m.order {
        assert m.items[i].Binary?;
      }
    }
  }

  /** What should arrive: the packet itself, every element in normal form. */
  ghost function Arrival(m: Message, deflate: Deflate): seq<Value>
    requires Sendable(m, deflate)
  {
    ItemsEncodable(m, deflate);
    seq(|m.items|, i requires 0 <= i < |m.items| => Norm(m.items[i]))
  }

  ghost function ChunkStream(m: Message, k: nat, deflate: Deflate): seq<byte>
    requires Sendable(m, deflate) && k <= |m.order|
    decreases |m.order| - k
  {
    if k == |m.order| then [] else FrameBytes(ChunkFrame(m, m.order[k]), deflate) + ChunkStream(m, k + 1, deflate)
  }

  ghost function MessageBytes(m: Message, deflate: Deflate): seq<byte>
    requires Sendable(m, deflate)
  {
    ChunkStream(m, 0, deflate) + FrameBytes(MainFrame(m), deflate)
  }

  ghost function StreamBytes(ms: seq<Message>, deflate: Deflate): seq<byte>
    requires forall i :: 0 <= i < |ms| ==> Sendable(ms[i], deflate)
  {
    if ms == [] then [] else MessageBytes(ms[0], deflate) + StreamBytes(ms[1..], deflate)
  }

  /** The chunks held once the first k of them have been sent. */
  function Held(m: Message, k: nat): Chunks
    requires k <= |m.order|
  {
    Chunks(map i | i in m.order[..k] :: ChunkData(m, i), ChunkBytes(m, k))
  }

  lemma {:induction false} ChunkBytesGrow(m: Message, j: nat, k: nat)
    requires j <= k <= |m.order|
    ensures ChunkBytes(m, j) <= ChunkBytes(m, k)
  {
    if j == k {
    } else {
      ChunkBytesGrow(m, j, k - 1);
    }
  }

  lemma {:induction false} HeldCount(m: Message, k: nat)
    requires k <= |m.order|
    requires forall i, j :: 0 <= i < j < |m.order| ==> m.order[i] != m.order[j]
    ensures |Held(m, k).packets| == k
  {
    if k == 0 {
      assert Held(m, 0).packets == map[];
    } else {
      HeldCount(m, k - 1);
      HeldNext(m, k - 1);
    }
  }

  lemma HeldNext(m: Message, k: nat)
    requires k < |m.order|
    requires forall i, j :: 0 <= i < j < |m.order| ==> m.order[i] != m.order[j]
    ensures m.order[k] !in Held(m, k).packets
    ensures Held(m, k + 1).packets == Held(m, k).packets[m.order[k] := ChunkData(m, m.order[k])]
  {
    assert m.order[..k + 1] == m.order[..k] + [m.order[k]];
  }

  lemma AddHeld(m: Message, k: nat)
    requires k < |m.order| && k < MAX_CHUNKS
    requires forall i, j :: 0 <= i < j < |m.order| ==> m.order[i] != m.order[j]
    requires ChunkData(m, m.order[k]) != [] && ChunkBytes(m, k + 1) <= MAX_PAYLOAD
    ensures AddChunk(Held(m, k), m.order[k], ChunkData(m, m.order[k])) == Ok(Held(m, k + 1))
  {
    HeldCount(m, k);
    HeldNext(m, k);
  }

  lemma ChunkTurn(m: Message, k: nat, deflate: Deflate)
    requires Sendable(m, deflate) && k < |m.order|
    ensures var f := ChunkFrame(m, m.order[k]);
      Sized(f, deflate) && Take(f.flags, f.index, f.body, Held(m, k)) == Hold(Held(m, k + 1))
  {
    hide Payload, Enc, Shallow, Encodable, Sized, Held, MainItems, AddChunk;
    assert 1 <= m.order[k] <= MAX_INDEX && ChunkData(m, m.order[k]) != [];
    assert Sized(ChunkFrame(m, m.order[k]), deflate);
    ChunkBytesGrow(m, k + 1, |m.order|);
    AddHeld(m, k);
  }

  lemma {:induction false} ReadChunks(m: Message, k: nat, rest: seq<byte>, ending: Ending, deflate: Deflate, inflate: Inflate)
    requires Sendable(m, deflate) && Inverse(deflate, inflate) && k <= |m.order|
    ensures ReadAll(ChunkStream(m, k, deflate) + rest, Held(m, k), ending, inflate)
         == ReadAll(rest, Held(m, |m.order|), ending, inflate)
    decreases |m.order| - k
  {
    hide ReadAll, Payload, Sendable, Take, Held, FrameBytes, Inverse;
    if k == |m.order| {
      assert ChunkStream(m, k, deflate) + rest == rest;
    } else {
      var f := ChunkFrame(m, m.order[k]);
      ChunkTurn(m, k, deflate);
      var after := ChunkStream(m, k + 1, deflate) + rest;
      assert ChunkStream(m, k, deflate) + rest == FrameBytes(f, deflate) + after;
      ReadFrame(f, after, Held(m, k), ending, deflate, inflate);
      ReadChunks(m, k + 1, rest, ending, deflate, inflate);
    }
  }

  /** Element i of the main packet arrives as a placeholder or in normal form. */
  lemma ArrivalAt(m: Message, deflate: Deflate, i: nat)
    requires Sendable(m, deflate) && i < |m.items|
    ensures Norm(List(MainItems(m))).List? && |Norm(List(MainItems(m))).items| == |m.items|
    ensures if i <= MAX_INDEX && i in m.order
            then Norm(List(MainItems(m))).items[i] == Hole(m, i) && Arrival(m, deflate)[i] == Binary(ChunkData(m, i))
            else Norm(List(MainItems(m))).items[i] == Arrival(m, deflate)[i]
  {
    hide Enc, Payload, Shallow, Sized;
    assert Norm(List(MainItems(m))).items[i] == Norm(MainItems(m)[i]);
    if i <= MAX_INDEX && i in m.order {
      assert m.items[i].Binary?;
    }
  }

  /** The chunks held in the end are those announced. */
  lemma HeldAll(m: Message)
    requires forall j :: 0 <= j < |m.order| ==> m.order[j] < |m.items|
    ensures var held := Held(m, |m.order|).packets;
      && (forall i: byte :: i in held <==> i in m.order)
      && (forall i: byte :: i in held ==> held[i] == ChunkData(m, i) && i < |m.items|)
  {
    hide ChunkData, ChunkBytes;
    assert m.order[..|m.order|] == m.order;
  }

  /** Every element of the main packet as it arrives. */
  lemma ArrivalEverywhere(m: Message, deflate: Deflate)
    requires Sendable(m, deflate)
    ensures Norm(List(MainItems(m))).List? && |Norm(List(MainItems(m))).items| == |m.items| == |Arrival(m, deflate)|
    ensures forall i :: 0 <= i < |m.items| ==>
      if i <= MAX_INDEX && i in m.order
      then Norm(List(MainItems(m))).items[i] == Hole(m, i) && Arrival(m, deflate)[i] == Binary(ChunkData(m, i))
      else Norm(List(MainItems(m))).items[i] == Arrival(m, deflate)[i]
  {
    assert |Arrival(m, deflate)| == |m.items|;
    hide Enc, Norm, Sendable, MainItems, Hole, ChunkData, Encodable, Arrival;
    if m.items != [] { ArrivalAt(m, deflate, 0); } else { EmptyArrival(m); }
    forall i | 0 <= i < |m.items|
      ensures if i <= MAX_INDEX && i in m.order
              then Norm(List(MainItems(m))).items[i] == Hole(m, i) && Arrival(m, deflate)[i] == Binary(ChunkData(m, i))
              else Norm(List(MainItems(m))).items[i] == Arrival(m, deflate)[i]
    {
      ArrivalAt(m, deflate, i);
    }
  }

  lemma SplicedArrival(m: Message, deflate: Deflate)
    requires Sendable(m, deflate)
    ensures Norm(List(MainItems(m))).List?
    ensures var main := Norm(List(MainItems(m))).items;
      Fits(Held(m, |m.order|), main) && Spliced(Held(m, |m.order|), main) == Arrival(m, deflate)
  {
    assert forall j :: 0 <= j < |m.order| ==> 1 <= m.order[j] <= MAX_INDEX && m.order[j] < |m.items|;
    hide Enc, Norm, Sendable, MainItems, Hole, ChunkData, Encodable, Arrival, Held, IsPlaceholder;
    HeldAll(m);
    ArrivalEverywhere(m, deflate);
    forall i: byte | i in m.order ensures IsPlaceholder(Hole(m, i)) {
      HoleIsPlaceholder(m, i);
    }
  }

  lemma EmptyArrival(m: Message)
    requires m.items == [] && Encodable(List(MainItems(m)))
    ensures Norm(List(MainItems(m))).List? && Norm(List(MainItems(m))).items == []
  {
  }

  lemma HoleIsPlaceholder(m: Message, i: byte)
    ensures IsPlaceholder(Hole(m, i))
  {
  }

  lemma ReadMain(m: Message, rest: seq<byte>, ending: Ending, deflate: Deflate, inflate: Inflate)
    requires Sendable(m, deflate) && Inverse(deflate, inflate)
    ensures var o := ReadAll(rest, NO_CHUNKS, ending, inflate);
      ReadAll(FrameBytes(MainFrame(m), deflate) + rest, Held(m, |m.order|), ending, inflate)
      == Outcome([Arrival(m, deflate)] + o.packets, o.end)
  {
    var f := MainFrame(m);
    var held := Held(m, |m.order|);
    ReadFrame(f, rest, held, ending, deflate, inflate);
    DecodeEncode(List(MainItems(m)));
    SplicedArrival(m, deflate);
    HeldCount(m, |m.order|);
    hide *;
    assert Take(f.flags, f.index, f.body, held) == Deliver(Arrival(m, deflate)) by { MainTurn(m, deflate); }
  }

  lemma MainTurn(m: Message, deflate: Deflate)
    requires Sendable(m, deflate)
    ensures Take(m.mainFlags, 0, MainFrame(m).body, Held(m, |m.order|)) == Deliver(Arrival(m, deflate))
  {
    hide Enc, Norm, Payload, Shallow, Decode, Spliced, Fits;
    var main := List(MainItems(m));
    DecodeEncode(main);
    SplicedArrival(m, deflate);
    HeldCount(m, |m.order|);
    ListForm(main);
    if m.order == [] {
      EmptySplice(Held(m, 0), Norm(main).items);
    }
  }

  lemma EmptySplice(s: Chunks, packet: seq<Value>)
    requires |s.packets| == 0
    ensures Spliced(s, packet) == packet
  {
  }

  lemma ReadMessage(m: Message, rest: seq<byte>, ending: Ending, deflate: Deflate, inflate: Inflate)
    requires Sendable(m, deflate) && Inverse(deflate, inflate)
    ensures var o := ReadAll(rest, NO_CHUNKS, ending, inflate);
      ReadAll(MessageBytes(m, deflate) + rest, NO_CHUNKS, ending, inflate)
      == Outcome([Arrival(m, deflate)] + o.packets, o.end)
  {
    hide ReadAll, Arrival, Encodable, FrameBytes, ChunkStream, Inverse;
    var main := FrameBytes(MainFrame(m), deflate);
    assert MessageBytes(m, deflate) + rest == ChunkStream(m, 0, deflate) + (main + rest);
    HeldNone(m);
    ReadChunks(m, 0, main + rest, ending, deflate, inflate);
    ReadMain(m, rest, ending, deflate, inflate);
  }

  lemma HeldNone(m: Message)
    ensures Held(m, 0) == NO_CHUNKS
  {
  }

  ghost function Arrivals(ms: seq<Message>, deflate: Deflate): seq<seq<Value>>
    requires forall i :: 0 <= i < |ms| ==> Sendable(ms[i], deflate)
  {
    if ms == [] then [] else [Arrival(ms[0], deflate)] + Arrivals(ms[1..], deflate)
  }

  lemma StreamFrom(ms: seq<Message>, deflate: Deflate)
    requires forall i :: 0 <= i < |ms| ==> Sendable(ms[i], deflate)
    ensures ms == [] ==> StreamBytes(ms, deflate) == [] && Arrivals(ms, deflate) == []
    ensures ms != [] ==>
      && StreamBytes(ms, deflate) == MessageBytes(ms[0], deflate) + StreamBytes(ms[1..], deflate)
      && Arrivals(ms, deflate) == [Arrival(ms[0], deflate)] + Arrivals(ms[1..], deflate)
  {
    hide Sendable, MessageBytes, Arrival;
  }

  /** The reader delivers the packets of any messages and goes on behind them. */
  lemma {:induction false} ReadMessages(ms: seq<Message>, rest: seq<byte>, ending: Ending, deflate: Deflate, inflate: Inflate)
    requires forall i :: 0 <= i < |ms| ==> Sendable(ms[i], deflate)
    requires Inverse(deflate, inflate)
    ensures ReadAll(StreamBytes(ms, deflate) + rest, NO_CHUNKS, ending, inflate)
         == Outcome(Arrivals(ms, deflate) + ReadAll(rest, NO_CHUNKS, ending, inflate).packets,
                    ReadAll(rest, NO_CHUNKS, ending, inflate).end)
  {
    hide Sendable, Arrival, Arrivals, ReadAll, Encodable, Inverse, StreamBytes, MessageBytes;
    StreamFrom(ms, deflate);
    var o := ReadAll(rest, NO_CHUNKS, ending, inflate);
    if ms == [] {
      assert StreamBytes(ms, deflate) + rest == rest && Arrivals(ms, deflate) + o.packets == o.packets;
    } else {
      var after := StreamBytes(ms[1..], deflate) + rest;
      assert StreamBytes(ms, deflate) + rest == MessageBytes(ms[0], deflate) + after;
      ReadMessages(ms[1..], rest, ending, deflate, inflate);
      ReadMessage(ms[0], after, ending, deflate, inflate);
      assert [Arrival(ms[0], deflate)] + (Arrivals(ms[1..], deflate) + o.packets) == Arrivals(ms, deflate) + o.packets;
    }
  }

  /** The end-to-end theorem: the reader, run on the bytes of any sequence of such
      messages, delivers exactly their packets, in order, and ends cleanly. */
  lemma {:induction false} EndToEnd(ms: seq<Message>, deflate: Deflate, inflate: Inflate)
    requires forall i :: 0 <= i < |ms| ==> Sendable(ms[i], deflate)
    requires Inverse(deflate, inflate)
    ensures ReadAll(StreamBytes(ms, deflate), NO_CHUNKS, Eof, inflate) == Outcome(Arrivals(ms, deflate), Clean)
  {
    hide Sendable, Arrival, Arrivals, Encodable, Inverse, StreamBytes;
    ReadMessages(ms, [], Eof, deflate, inflate);
    assert StreamBytes(ms, deflate) + [] == StreamBytes(ms, deflate);
    assert Arrivals(ms, deflate) + [] == Arrivals(ms, deflate);
  }
}
