/** The read loop of a connection and the chunks it collects, as they run. */
module Reader {
  import opened Bytes
  import opened Rencodeplus
  import opened Framing
  import opened FramingProofs
  import Codec

  class RawChunks {
    var packets: map<byte, GoBytes>
    var size: nat

    constructor ()
      ensures State() == NO_CHUNKS
    {
      packets := map[];
      size := 0;
    }

    ghost function State(): Chunks
      reads this
    {
      Chunks(packets, size)
    }

    method Add(index: byte, payload: seq<byte>) returns (r: Result<(), ReadError>)
      modifies this
      ensures match AddChunk(old(State()), index, payload)
        case Ok(s) => r == Ok(()) && State() == s
        case Err(e) => r == Err(e) && State() == old(State())
    {
      if payload == [] {
        return Err(EmptyChunk);
      }
      if index in packets {
        return Err(DuplicateChunk);
      }
      if |packets| >= MAX_CHUNKS {
        return Err(TooManyChunks);
      }
      if |payload| > MAX_PAYLOAD - size {
        return Err(ChunksTooLarge);
      }
      packets := packets[index := payload];
      size := size + |payload|;
      r := Ok(());
    }

    /** Puts the chunks into the packet; they are gone afterwards. */
    method Apply(packet: seq<Value>, mainSize: nat) returns (r: Result<seq<Value>, ReadError>)
      modifies this
      ensures r == ApplyChunks(old(State()), packet, mainSize)
      ensures r.Ok? && |old(packets)| != 0 ==> State() == NO_CHUNKS
      ensures r.Err? || |old(packets)| == 0 ==> State() == old(State())
    {
      if |packets| == 0 {
        return Ok(packet);
      }
      if mainSize > MAX_PAYLOAD - size {
        return Err(PacketTooLarge);
      }
      var out := packet;
      var index := 1;
      while index <= MAX_INDEX
        invariant 1 <= index <= MAX_INDEX + 1
        invariant State() == old(State())
        invariant FitsTo(State(), packet, index)
        invariant out == SplicedTo(State(), packet, index)
        invariant Misfit(State(), packet, 1) == Misfit(State(), packet, index)
      {
        if index in packets {
          if index >= |packet| {
            return Err(IndexOutside);
          }
          if !IsPlaceholder(packet[index]) {
            return Err(FullPlaceholder);
          }
          out := out[index := Binary(packets[index])];
        }
        SplicedNext(State(), packet, index);
        index := index + 1;
      }
      assert out == Spliced(State(), packet);
      packets := map[];
      size := 0;
      r := Ok(out);
    }
  }

  predicate FitsTo(s: Chunks, packet: seq<Value>, n: nat) {
    forall i: byte :: 1 <= i < n && i in s.packets ==> i < |packet| && IsPlaceholder(packet[i])
  }

  /** The packet with the chunks at the indexes below n in it. */
  function SplicedTo(s: Chunks, packet: seq<Value>, n: nat): seq<Value> {
    seq(|packet|, i requires 0 <= i < |packet| =>
      if 1 <= i < n && i <= MAX_INDEX && i in s.packets then Binary(s.packets[i]) else packet[i])
  }

  lemma SplicedNext(s: Chunks, packet: seq<Value>, n: nat)
    requires 1 <= n <= MAX_INDEX && (n in s.packets ==> n < |packet|)
    ensures SplicedTo(s, packet, n + 1)
         == if n in s.packets then SplicedTo(s, packet, n)[n := Binary(s.packets[n])] else SplicedTo(s, packet, n)
  {
  }

  /** What is still to be delivered and how reading ends, after `delivered`. */
  ghost function After(delivered: seq<seq<Value>>, o: Outcome): Outcome {
    Outcome(delivered + o.packets, o.end)
  }

  /** How a frame moves what was delivered, and what is still to come, on. */
  lemma Turned(delivered: seq<seq<Value>>, turn: Turn, rest: seq<byte>, ending: Ending, inflate: Inflate)
    ensures After(delivered, GoOn(turn, rest, ending, inflate)) ==
      if turn.Stop? then Outcome(delivered, Failed(turn.error))
      else if turn.Hold? then After(delivered, ReadAll(rest, turn.chunks, ending, inflate))
      else After(delivered + [turn.packet], ReadAll(rest, NO_CHUNKS, ending, inflate))
  {
    hide ReadAll;
    assert delivered + [] == delivered;
    if turn.Deliver? {
      var o := ReadAll(rest, NO_CHUNKS, ending, inflate);
      assert delivered + ([turn.packet] + o.packets) == delivered + [turn.packet] + o.packets;
    }
  }

  lemma NothingYet(o: Outcome)
    ensures After([], o) == o
  {
    assert [] + o.packets == o.packets;
  }

  lemma Ended(delivered: seq<seq<Value>>, end: End)
    ensures After(delivered, Outcome([], end)) == Outcome(delivered, end)
  {
    assert delivered + [] == delivered;
  }

  /** Reads a stream to its end: the packets delivered, and the error recorded when
      the connection was not closed from this side. */
  method ReadLoop(stream: seq<byte>, ending: Ending, inflate: Inflate) returns (delivered: seq<seq<Value>>, end: End)
    ensures Outcome(delivered, end) == ReadAll(stream, NO_CHUNKS, ending, inflate)
  {
    hide ReadAll, Take, ParseHeader, Decompress, Decode, ApplyChunks, AddChunk, ValidChunks, After, GoOn;
    delivered := [];
    var chunks := new RawChunks();
    NoChunksValid();
    var pos := 0;
    assert stream[0..] == stream;
    assert After([], ReadAll(stream, NO_CHUNKS, ending, inflate)) == ReadAll(stream, NO_CHUNKS, ending, inflate) by {
      NothingYet(ReadAll(stream, NO_CHUNKS, ending, inflate));
    }
    while true
      invariant 0 <= pos <= |stream|
      invariant ValidChunks(chunks.State())
      invariant ReadAll(stream, NO_CHUNKS, ending, inflate)
             == After(delivered, ReadAll(stream[pos..], chunks.State(), ending, inflate))
      decreases |stream| - pos
    {
      ghost var left := stream[pos..];
      ReadCases(left, chunks.State(), ending, inflate);
      forall e ensures After(delivered, Outcome([], e)) == Outcome(delivered, e) {
        Ended(delivered, e);
      }
      if pos == |stream| && ending == Eof {
        return delivered, if |chunks.packets| != 0 then Failed(PendingChunks) else Clean;
      }
      if |stream| - pos < HEADER_SIZE {
        return delivered, Failed(BrokenHeader);
      }
      assert stream[pos..pos + HEADER_SIZE] == left[..HEADER_SIZE];
      var parsed := ParseHeader(stream[pos..pos + HEADER_SIZE]);
      if parsed.Err? {
        return delivered, Failed(parsed.error);
      }
      var h := parsed.value;
      pos := pos + HEADER_SIZE;
      assert stream[pos..] == left[HEADER_SIZE..];
      if |stream| - pos < h.length {
        return delivered, Failed(BrokenPayload);
      }
      var payload := stream[pos..pos + h.length];
      assert payload == left[HEADER_SIZE..][..h.length];
      pos := pos + h.length;
      assert stream[pos..] == left[HEADER_SIZE..][h.length..];
      if h.compression != 0 {
        var body := Decompress(h.compression, payload, inflate);
        if body.Err? {
          return delivered, Failed(body.error);
        }
        payload := body.value;
      }
      TakeKeepsValid(h.flags, h.index, payload, chunks.State());
      var turn := TakeFrame(h.flags, h.index, payload, chunks);
      Turned(delivered, turn, stream[pos..], ending, inflate);
      if turn.Stop? {
        return delivered, Failed(turn.error);
      }
      if turn.Deliver? {
        delivered := delivered + [turn.packet];
        NoChunksValid();
      }
    }
  }

  /** One frame: a chunk to keep, or a packet to deliver. */
  method TakeFrame(flags: byte, index: byte, payload: seq<byte>, chunks: RawChunks) returns (turn: Turn)
    requires ValidChunks(chunks.State())
    modifies chunks
    ensures turn == Take(flags, index, payload, old(chunks.State()))
    ensures turn.Hold? ==> chunks.State() == turn.chunks
    ensures turn.Deliver? ==> chunks.State() == NO_CHUNKS
  {
    hide Take, Decode, ApplyChunks, AddChunk, ValidChunks;
    TakeCases(flags, index, payload, chunks.State());
    EmptyIsNone(chunks.State());
    if index != 0 {
      var added := chunks.Add(index, payload);
      return if added.Err? then Stop(added.error) else Hold(Chunks(chunks.packets, chunks.size));
    }
    if !HasBit(flags, FLAG_RENCODEPLUS) {
      return Stop(NotRencodeplus);
    }
    var decoded := Codec.DecodeAll(payload);
    if decoded.Err? {
      return Stop(Undecodable(decoded.error));
    }
    if !decoded.value.List? {
      return Stop(NotAList);
    }
    var packet := chunks.Apply(decoded.value.items, |payload|);
    return if packet.Err? then Stop(packet.error) else Deliver(packet.value);
  }

  lemma EmptyIsNone(s: Chunks)
    requires ValidChunks(s)
    ensures |s.packets| == 0 ==> s == NO_CHUNKS
  {
    if |s.packets| == 0 {
      assert s.packets == map[];
      TotalEmpty(1);
    }
  }

  lemma TakeCases(flags: byte, index: byte, body: seq<byte>, chunks: Chunks)
    ensures Take(flags, index, body, chunks) ==
      (if index != 0 then
         (var added := AddChunk(chunks, index, body);
          if added.Err? then Stop(added.error) else Hold(added.value))
       else if !HasBit(flags, FLAG_RENCODEPLUS) then Stop(NotRencodeplus)
       else
         (var decoded := Decode(body);
          if decoded.Err? then Stop(Undecodable(decoded.error))
          else if !decoded.value.List? then Stop(NotAList)
          else
            (var packet := ApplyChunks(chunks, decoded.value.items, |body|);
             if packet.Err? then Stop(packet.error) else Deliver(packet.value))))
  {
    hide Decode, ApplyChunks, AddChunk;
  }
}
