/** The memory shared with the server: the token that proves both sides map the same
    area, and the chunks of pixels the server leaves in it. */
module Mmap {
  import opened Bytes
  import opened Rencodeplus

  const HEADER_SIZE: nat := 8
  const TOKEN_BYTES: nat := 128

  datatype MmapError =
    | InvalidToken
    | TokenTooLong
    | AreaTooSmall
    | TokenOutside
    | TokenMismatch
    | NotNegotiated
    | InvalidChunkList
    | InvalidChunk
    | ChunkOutside
    | SizesOverflow
    | NoPixels

  // ---- little-endian naturals of any width ---------------------------------------

  function LittleEndian(n: nat, k: nat): (s: seq<byte>)
    ensures |s| == k
  {
    if k == 0 then [] else [n % 256] + LittleEndian(n / 256, k - 1)
  }

  function FromLittleEndian(s: seq<byte>): (n: nat) {
    if s == [] then 0 else s[0] + 256 * FromLittleEndian(s[1..])
  }

  lemma {:induction false} LittleEndianRoundTrip(n: nat, k: nat)
    requires n < Pow256(k)
    ensures FromLittleEndian(LittleEndian(n, k)) == n
  {
    if k == 0 {
    } else {
      assert LittleEndian(n, k)[1..] == LittleEndian(n / 256, k - 1);
      LittleEndianRoundTrip(n / 256, k - 1);
    }
  }

  function Reversed(s: seq<byte>): (r: seq<byte>)
    ensures |r| == |s|
  {
    if s == [] then [] else Reversed(s[1..]) + [s[0]]
  }

  lemma {:induction false} ReversedAt(s: seq<byte>, i: nat)
    requires i < |s|
    ensures Reversed(s)[i] == s[|s| - 1 - i]
  {
    if i == |s| - 1 {
    } else {
      ReversedAt(s[1..], i);
    }
  }

  /** Reading the reversed bytes big-endian reads the bytes little-endian. */
  lemma {:induction false} ReversedBigEndian(s: seq<byte>)
    ensures FromBigEndian(Reversed(s)) == FromLittleEndian(s)
  {
    if s == [] {
    } else {
      ReversedBigEndian(s[1..]);
      var r := Reversed(s);
      assert r[..|r| - 1] == Reversed(s[1..]);
    }
  }

  /** big.Int.Bytes: big-endian, without leading zeros. */
  function MinimalBytes(n: nat): (s: seq<byte>) {
    if n == 0 then [] else MinimalBytes(n / 256) + [n % 256]
  }

  lemma {:induction false} MinimalFits(n: nat, k: nat)
    ensures |MinimalBytes(n)| <= k <==> n < Pow256(k)
    decreases k
  {
    if n == 0 || k == 0 {
    } else {
      MinimalFits(n / 256, k - 1);
    }
  }

  /** Little-endian bytes are the minimal ones backwards, then zeros. */
  lemma {:induction false} LittleEndianAt(n: nat, k: nat, i: nat)
    requires n < Pow256(k) && i < k
    ensures |MinimalBytes(n)| <= k
    ensures LittleEndian(n, k)[i] == if i < |MinimalBytes(n)| then MinimalBytes(n)[|MinimalBytes(n)| - 1 - i] else 0
  {
    MinimalFits(n, k);
    if i == 0 {
    } else {
      LittleEndianAt(n / 256, k - 1, i - 1);
    }
  }

  // ---- the token --------------------------------------------------------------------

  /** count bytes from index on lie inside an area of size bytes. */
  predicate Inside(index: int, count: int, size: nat) {
    index >= 0 && count > 0 && index + count <= size
  }

  method WriteToken(data: array<byte>, token: Option<int>, index: int, count: int) returns (err: Option<MmapError>)
    modifies data
    ensures err == (if token.None? || token.value < 0 || !Inside(index, count, data.Length) then Some(InvalidToken)
                    else if token.value >= Pow256(count) then Some(TokenTooLong)
                    else None)
    ensures err.Some? ==> data[..] == old(data[..])
    ensures err.None? ==> data[index..index + count] == LittleEndian(token.value, count)
    ensures err.None? ==> SameOutside(data[..], old(data[..]), index, index + count)
  {
    if token.None? || token.value < 0 || index < 0 || count <= 0 || index > data.Length || count > data.Length - index {
      return Some(InvalidToken);
    }
    var encoded := MinimalBytes(token.value);
    MinimalFits(token.value, count);
    if |encoded| > count {
      return Some(TokenTooLong);
    }
    for i := 0 to count
      invariant forall k :: index <= k < index + i ==> data[k] == 0
      invariant SameOutside(data[..], old(data[..]), index, index + count)
    {
      data[index + i] := 0;
    }
    for i := 0 to |encoded|
      invariant forall k :: index <= k < index + count ==> data[k] == if k < index + i then encoded[|encoded| - 1 - (k - index)] else 0
      invariant SameOutside(data[..], old(data[..]), index, index + count)
    {
      data[index + i] := encoded[|encoded| - 1 - i];
    }
    forall k | 0 <= k < count ensures data[index + k] == LittleEndian(token.value, count)[k] {
      LittleEndianAt(token.value, count, k);
    }
    assert data[index..index + count] == LittleEndian(token.value, count);
    return None;
  }

  method ReadToken(data: array<byte>, index: int, count: int) returns (r: Result<nat, MmapError>)
    ensures r == if Inside(index, count, data.Length) then Ok(FromLittleEndian(data[index..index + count])) else Err(TokenOutside)
  {
    if index < 0 || count <= 0 || index > data.Length || count > data.Length - index {
      return Err(TokenOutside);
    }
    var encoded := new byte[count];
    ghost var s := data[index..index + count];
    for i := 0 to count
      invariant forall k :: count - i <= k < count ==> encoded[k] == s[count - 1 - k]
    {
      encoded[count - 1 - i] := data[index + i];
    }
    forall k | 0 <= k < count ensures encoded[k] == Reversed(s)[k] {
      ReversedAt(s, k);
    }
    assert encoded[..] == Reversed(s);
    ReversedBigEndian(s);
    return Ok(FromBigEndian(encoded[..]));
  }

  /** What was written is read back, from the same place in any area that agrees
      there. */
  method TokenRoundTrip(data: array<byte>, token: nat, index: nat, count: nat) returns (r: Result<nat, MmapError>)
    requires count > 0 && index + count <= data.Length && token < Pow256(count)
    modifies data
    ensures r == Ok(token)
    ensures SameOutside(data[..], old(data[..]), index, index + count)
  {
    var err := WriteToken(data, Some(token), index, count);
    LittleEndianRoundTrip(token, count);
    r := ReadToken(data, index, count);
  }

  // ---- chunks -------------------------------------------------------------------------

  datatype Chunk = Chunk(offset: nat, length: nat)

  /** An [offset, length] pair inside an area of size bytes, past its header. */
  predicate GoodChunk(v: Value, size: nat) {
    && v.List? && |v.items| == 2 && v.items[0].Int? && v.items[1].Int?
    && HEADER_SIZE <= v.items[0].n && 0 <= v.items[1].n && v.items[0].n + v.items[1].n <= size
  }

  function ChunkOf(v: Value, size: nat): Chunk
    requires GoodChunk(v, size)
  {
    Chunk(v.items[0].n, v.items[1].n)
  }

  /** One or two chunks with pixels in them, together no longer than the area. */
  predicate GoodChunks(raw: Value, size: nat) {
    && raw.List? && 1 <= |raw.items| <= 2
    && (forall i :: 0 <= i < |raw.items| ==> GoodChunk(raw.items[i], size))
    && 0 < Total(ChunksOf(raw, size)) <= size
  }

  function ChunksOf(raw: Value, size: nat): seq<Chunk>
    requires raw.List? && forall i :: 0 <= i < |raw.items| ==> GoodChunk(raw.items[i], size)
  {
    seq(|raw.items|, i requires 0 <= i < |raw.items| => ChunkOf(raw.items[i], size))
  }

  function Total(chunks: seq<Chunk>): nat {
    if chunks == [] then 0 else Total(chunks[..|chunks| - 1]) + chunks[|chunks| - 1].length
  }

  /** Too many bytes in the first chunks are too many in all. */
  lemma Overflows(raw: Value, size: nat, chunks: seq<Chunk>)
    requires raw.List? && |chunks| < |raw.items| && GoodChunk(raw.items[|chunks|], size)
    requires forall i :: 0 <= i < |chunks| ==> GoodChunk(raw.items[i], size) && chunks[i] == ChunkOf(raw.items[i], size)
    requires Total(chunks) + ChunkOf(raw.items[|chunks|], size).length > size
    ensures !GoodChunks(raw, size)
  {
    var k := |chunks|;
    if forall i :: 0 <= i < |raw.items| ==> GoodChunk(raw.items[i], size) {
      var all := ChunksOf(raw, size);
      TotalGrows(all, k + 1);
      assert all[..k + 1][..k] == chunks;
    }
  }

  /** What is wrong with one descriptor after chunks of `total` bytes. */
  function ChunkError(v: Value, total: nat, size: nat): Option<MmapError> {
    if !v.List? || |v.items| != 2 then Some(InvalidChunk)
    else if !GoodChunk(v, size) then Some(ChunkOutside)
    else if total + v.items[1].n > size then Some(SizesOverflow)
    else None
  }

  /** The first thing wrong with descriptors from number k on. */
  function FirstError(items: seq<Value>, k: nat, total: nat, size: nat): Option<MmapError>
    requires k <= |items|
    decreases |items| - k
  {
    if k == |items| then if total == 0 then Some(NoPixels) else None
    else
      var e := ChunkError(items[k], total, size);
      if e.Some? then e else FirstError(items, k + 1, total + items[k].items[1].n, size)
  }

  function ChunksError(raw: Value, size: nat): Option<MmapError> {
    if !raw.List? || |raw.items| == 0 || |raw.items| > 2 then Some(InvalidChunkList)
    else FirstError(raw.items, 0, 0, size)
  }

  method ParseChunks(raw: Value, size: nat) returns (r: Result<seq<Chunk>, MmapError>)
    ensures r.Ok? <==> GoodChunks(raw, size)
    ensures r.Ok? ==> r.value == ChunksOf(raw, size)
    ensures r.Err? ==> ChunksError(raw, size) == Some(r.error)
  {
    if !raw.List? || |raw.items| == 0 || |raw.items| > 2 {
      return Err(InvalidChunkList);
    }
    var chunks: seq<Chunk> := [];
    var total := 0;
    for k := 0 to |raw.items|
      invariant forall i :: 0 <= i < k ==> GoodChunk(raw.items[i], size)
      invariant |chunks| == k && forall i :: 0 <= i < k ==> chunks[i] == ChunkOf(raw.items[i], size)
      invariant total == Total(chunks) <= size
      invariant ChunksError(raw, size) == FirstError(raw.items, k, total, size)
    {
      var item := raw.items[k];
      if !item.List? || |item.items| != 2 {
        return Err(InvalidChunk);
      }
      if !item.items[0].Int? || !item.items[1].Int? {
        return Err(ChunkOutside);
      }
      var offset, length := item.items[0].n, item.items[1].n;
      if offset < HEADER_SIZE || length < 0 || offset > size || length > size - offset {
        return Err(ChunkOutside);
      }
      if length > size - total {
        Overflows(raw, size, chunks);
        return Err(SizesOverflow);
      }
      ghost var before := chunks;
      chunks := chunks + [Chunk(offset, length)];
      assert chunks[..|chunks| - 1] == before;
      total := total + length;
    }
    assert chunks == ChunksOf(raw, size);
    if total == 0 {
      return Err(NoPixels);
    }
    return Ok(chunks);
  }

  lemma {:induction false} TotalGrows(chunks: seq<Chunk>, k: nat)
    requires k <= |chunks|
    ensures Total(chunks[..k]) <= Total(chunks)
    decreases |chunks|
  {
    if k < |chunks| {
      TotalGrows(chunks[..|chunks| - 1], k);
      assert chunks[..|chunks| - 1][..k] == chunks[..k];
    } else {
      assert chunks[..k] == chunks;
    }
  }

  /** The bytes of the chunks, one after the other. */
  function ChunkBytes(data: seq<byte>, chunks: seq<Chunk>): seq<byte>
    requires forall i :: 0 <= i < |chunks| ==> chunks[i].offset + chunks[i].length <= |data|
  {
    if chunks == [] then []
    else
      var last := chunks[|chunks| - 1];
      ChunkBytes(data, chunks[..|chunks| - 1]) + data[last.offset..last.offset + last.length]
  }

  function End(chunks: seq<Chunk>): nat
    requires chunks != []
  {
    chunks[|chunks| - 1].offset + chunks[|chunks| - 1].length
  }

  // ---- the area -------------------------------------------------------------------------

  lemma {:induction false} Pow256Monotone(a: nat, b: nat)
    requires a <= b
    ensures Pow256(a) <= Pow256(b)
  {
    if a == b {
    } else {
      Pow256Monotone(a, b - 1);
    }
  }

  /** Sixteen random bytes fit the token bytes. */
  lemma TokenFits(random: seq<byte>, k: nat)
    requires |random| == 16
    ensures k >= 16 ==> Max(FromBigEndian(random), 1) < Pow256(k)
  {
    if k >= 16 {
      Pow256Monotone(16, k);
      Pow256Monotone(1, k);
      assert Pow256(1) == 256;
    }
  }

  /** Good chunks lie inside the area. */
  lemma ChunksInside(raw: Value, size: nat)
    requires GoodChunks(raw, size)
    ensures 1 <= |ChunksOf(raw, size)| <= 2 && size >= HEADER_SIZE
    ensures forall i :: 0 <= i < |ChunksOf(raw, size)| ==> ChunksOf(raw, size)[i].offset + ChunksOf(raw, size)[i].length <= size
  {
    assert GoodChunk(raw.items[0], size);
  }

  /** The area's bytes from offset on, so many, past the header. */
  predicate InArea(offset: int, length: int, size: nat) {
    8 <= offset && 0 <= length && offset + length <= size
  }

  function Pair(offset: int64, length: int64): Value {
    List([Int(offset), Int(length)])
  }

  lemma PairGood(o: int64, n: int64, size: nat)
    ensures GoodChunk(Pair(o, n), size) <==> InArea(o, n, size)
  {
  }

  /** A single pair is accepted if and only if it has pixels and lies inside the area. */
  lemma OneAccepted(o: int64, n: int64, size: nat)
    ensures GoodChunks(List([Pair(o, n)]), size) <==> InArea(o, n, size) && 0 < n
  {
    hide GoodChunk, Pair;
    PairGood(o, n, size);
    if InArea(o, n, size) {
      var raw := List([Pair(o, n)]);
      assert raw.items[0] == Pair(o, n);
      TotalOfOne(ChunksOf(raw, size));
      PairChunk(o, n, size);
    }
  }

  lemma PairChunk(o: int64, n: int64, size: nat)
    requires GoodChunk(Pair(o, n), size)
    ensures ChunkOf(Pair(o, n), size) == Chunk(o, n)
  {
  }

  lemma TotalOfOne(chunks: seq<Chunk>)
    requires |chunks| == 1
    ensures Total(chunks) == chunks[0].length
  {
    assert chunks[..0] == [];
  }

  lemma TotalOfTwo(chunks: seq<Chunk>)
    requires |chunks| == 2
    ensures Total(chunks) == chunks[0].length + chunks[1].length
  {
    TotalOfOne(chunks[..1]);
  }

  /** Two are if and only if both lie inside the area, one has pixels, and together they
      are no longer than the area. */
  lemma TwoAccepted(o: int64, n: int64, p: int64, q: int64, size: nat)
    ensures GoodChunks(List([Pair(o, n), Pair(p, q)]), size)
      <==> InArea(o, n, size) && InArea(p, q, size) && 0 < n + q <= size
  {
    hide GoodChunk, Pair, Total, InArea;
    PairGood(o, n, size);
    PairGood(p, q, size);
    var raw := List([Pair(o, n), Pair(p, q)]);
    assert raw.items[0] == Pair(o, n) && raw.items[1] == Pair(p, q);
    if InArea(o, n, size) && InArea(p, q, size) {
      TotalOfTwo(ChunksOf(raw, size));
      PairChunk(o, n, size);
      PairChunk(p, q, size);
    }
  }

  /** And nothing else is. */
  lemma OnlyPairsAccepted(raw: Value, size: nat)
    requires GoodChunks(raw, size)
    ensures raw.List? && 1 <= |raw.items| <= 2
    ensures forall v :: v in raw.items ==> v.List? && |v.items| == 2 && v.items[0].Int? && v.items[1].Int? && v == Pair(v.items[0].n, v.items[1].n)
  {
    hide Total, ChunksOf;
  }

  /** What is wrong with a list that is refused: its length, or else the first pair that is
      none, lies outside the area or makes the pixels more than it holds, or else that it
      has no pixels. */
  lemma RefusedChunks(raw: Value, size: nat)
    ensures var e := ChunksError(raw, size);
      if !raw.List? || !(|raw.items| == 1 || |raw.items| == 2) then e == Some(InvalidChunkList)
      else
        var a, b := raw.items[0], raw.items[|raw.items| - 1];
        if !a.List? || |a.items| != 2 then e == Some(InvalidChunk)
        else if !(a.items[0].Int? && a.items[1].Int? && InArea(a.items[0].n, a.items[1].n, size)) then e == Some(ChunkOutside)
        else if |raw.items| == 1 then e == (if a.items[1].n == 0 then Some(NoPixels) else None)
        else if !b.List? || |b.items| != 2 then e == Some(InvalidChunk)
        else if !(b.items[0].Int? && b.items[1].Int? && InArea(b.items[0].n, b.items[1].n, size)) then e == Some(ChunkOutside)
        else
          var total := a.items[1].n + b.items[1].n;
          e == if total > size then Some(SizesOverflow) else if total == 0 then Some(NoPixels) else None
  {
    if raw.List? && 1 <= |raw.items| <= 2 && ChunkError(raw.items[0], 0, size).None? {
      var n: nat := raw.items[0].items[1].n;
      assert FirstError(raw.items, 0, 0, size) == FirstError(raw.items, 1, n, size);
      if |raw.items| == 2 && ChunkError(raw.items[1], n, size).None? {
        var m: nat := raw.items[1].items[1].n;
        assert FirstError(raw.items, 1, n, size) == FirstError(raw.items, 2, n + m, size);
      }
    }
  }

  /** What the server's hello says about an area; a token that is no integer is None. */
  datatype AreaCaps = AreaCaps(enabled: Option<bool>, token: Option<int>, index: int64, count: int64)

  /** The mmap capabilities: a dictionary of their own for the area the server writes to,
      or else the older flat form, if it has a token at all. */
  datatype ServerCaps = ServerCaps(write: Option<AreaCaps>, flat: AreaCaps, hasToken: bool)

  /** The description of the area that counts. */
  function Described(caps: Option<ServerCaps>): Option<AreaCaps> {
    if caps.None? then None
    else if caps.value.write.Some? then caps.value.write
    else if caps.value.hasToken then Some(caps.value.flat)
    else None
  }

  /** What is wrong with the caps, for an area with these bytes. */
  function CapsError(data: seq<byte>, caps: AreaCaps): Option<MmapError> {
    var count := if caps.count == 0 then TOKEN_BYTES else caps.count;
    if caps.token.None? || caps.token.value <= 0 then Some(InvalidToken)
    else if !Inside(caps.index, count, |data|) then Some(TokenOutside)
    else if FromLittleEndian(data[caps.index..caps.index + count]) != caps.token.value then Some(TokenMismatch)
    else None
  }

  /** Publishes the read cursor, the first time it is called. */
  class Release {
    const data: array<byte>
    const end: nat
    var released: bool

    constructor (data: array<byte>, end: nat)
      requires data.Length >= HEADER_SIZE
      ensures this.data == data && this.end == end && !released
    {
      this.data, this.end, released := data, end, false;
    }

    method Call()
      requires data.Length >= HEADER_SIZE
      modifies this, data
      ensures released
      ensures data[..] == if old(released) then old(data[..]) else LittleEndian(end % 0x1_0000_0000, 4) + old(data[4..])
    {
      if !released {
        var cursor := LittleEndian(end % 0x1_0000_0000, 4);
        data[0], data[1], data[2], data[3] := cursor[0], cursor[1], cursor[2], cursor[3];
        released := true;
      }
    }
  }

  class Area {
    const data: array<byte>
    const tokenBytes: nat
    var token: nat
    var tokenIndex: nat
    var enabled: bool

    constructor (data: array<byte>, tokenBytes: nat)
      ensures this.data == data && this.tokenBytes == tokenBytes && !enabled
    {
      this.data, this.tokenBytes := data, tokenBytes;
      token, tokenIndex, enabled := 0, 0, false;
    }

    /** random is what the random source yields, pick its choice of a position among
        those available. */
    method GenerateToken(random: seq<byte>, pick: nat) returns (err: Option<MmapError>)
      requires |random| == 16
      requires pick < data.Length - HEADER_SIZE - tokenBytes + 1 || data.Length - HEADER_SIZE - tokenBytes + 1 <= 0
      modifies this, data
      ensures tokenBytes >= 16 ==> (err.None? <==> data.Length >= HEADER_SIZE + tokenBytes)
      ensures err.None? ==>
        && token == Max(FromBigEndian(random), 1)
        && HEADER_SIZE <= tokenIndex && tokenIndex + tokenBytes <= data.Length
        && FromLittleEndian(data[tokenIndex..tokenIndex + tokenBytes]) == token
        && SameOutside(data[..], old(data[..]), tokenIndex, tokenIndex + tokenBytes)
    {
      hide FromBigEndian, FromLittleEndian, LittleEndian, Pow256;
      TokenFits(random, tokenBytes);
      token := FromBigEndian(random);
      if token == 0 {
        token := 1;
      }
      var available := data.Length - HEADER_SIZE - tokenBytes + 1;
      if available <= 0 {
        return Some(AreaTooSmall);
      }
      tokenIndex := HEADER_SIZE + pick;
      err := WriteToken(data, Some(token), tokenIndex, tokenBytes);
      if err.None? {
        LittleEndianRoundTrip(token, tokenBytes);
      }
    }

    method EnableFromCaps(caps: Option<ServerCaps>) returns (r: Result<bool, MmapError>)
      modifies this
      ensures r == (if Described(caps).None? || Described(caps).value.enabled == Some(false) then Ok(false)
                    else var e := CapsError(data[..], Described(caps).value); if e.Some? then Err(e.value) else Ok(true))
      ensures enabled == (old(enabled) || r == Ok(true))
    {
      if caps.None? {
        return Ok(false);
      }
      var chosen := caps.value.write;
      if chosen.None? && caps.value.hasToken {
        chosen := Some(caps.value.flat);
      }
      if chosen.None? || chosen.value.enabled == Some(false) {
        return Ok(false);
      }
      var areaCaps := chosen.value;
      if areaCaps.token.None? || areaCaps.token.value <= 0 {
        return Err(InvalidToken);
      }
      var index, count := areaCaps.index, areaCaps.count;
      if count == 0 {
        count := TOKEN_BYTES;
      }
      if index < 0 || count <= 0 || index > data.Length || count > data.Length - index {
        return Err(TokenOutside);
      }
      var found := ReadToken(data, index, count);
      assert data[index..index + count] == data[..][index..index + count];
      if found.value != areaCaps.token.value {
        return Err(TokenMismatch);
      }
      enabled := true;
      return Ok(true);
    }

    method ReadChunks(raw: Value) returns (r: Result<(seq<byte>, Release), MmapError>)
      ensures r.Ok? <==> enabled && GoodChunks(raw, data.Length)
      ensures r.Ok? ==>
        var chunks := ChunksOf(raw, data.Length);
        var (pixels, release) := r.value;
        && pixels == ChunkBytes(data[..], chunks)
        && fresh(release) && release.data == data && release.end == End(chunks) && !release.released
        && data.Length >= HEADER_SIZE
    {
      hide GoodChunks, ChunksOf, ChunkBytes, GoodChunk;
      if !enabled {
        return Err(NotNegotiated);
      }
      var parsed := ParseChunks(raw, data.Length);
      if parsed.Err? {
        return Err(parsed.error);
      }
      ChunksInside(raw, data.Length);
      var chunks := parsed.value;
      var last := chunks[|chunks| - 1];
      var release := new Release(data, last.offset + last.length);
      if |chunks| == 1 {
        OneChunk(data[..], chunks);
        return Ok((data[last.offset..last.offset + last.length], release));
      }
      var pixels: seq<byte> := [];
      NoChunk(data[..]);
      for i := 0 to |chunks|
        invariant !release.released
        invariant pixels == ChunkBytes(data[..], chunks[..i])
      {
        NextChunk(data[..], chunks, i);
        pixels := pixels + data[chunks[i].offset..chunks[i].offset + chunks[i].length];
      }
      assert chunks[..|chunks|] == chunks;
      return Ok((pixels, release));
    }
  }

  lemma NoChunk(data: seq<byte>)
    ensures ChunkBytes(data, []) == []
  {
  }

  lemma NextChunk(data: seq<byte>, chunks: seq<Chunk>, i: nat)
    requires i < |chunks| && forall k :: 0 <= k < |chunks| ==> chunks[k].offset + chunks[k].length <= |data|
    ensures ChunkBytes(data, chunks[..i + 1])
         == ChunkBytes(data, chunks[..i]) + data[chunks[i].offset..chunks[i].offset + chunks[i].length]
  {
    assert chunks[..i + 1][..i] == chunks[..i];
  }

  lemma OneChunk(data: seq<byte>, chunks: seq<Chunk>)
    requires |chunks| == 1 && chunks[0].offset + chunks[0].length <= |data|
    ensures ChunkBytes(data, chunks) == data[chunks[0].offset..chunks[0].offset + chunks[0].length]
  {
    assert chunks[..0] == [];
  }

  /** What is wrong with the description of an area: that it has no positive token, that the
      token lies outside the area, or that it is not the number stored there; its size is
      128 bytes unless it says otherwise. */
  lemma CapsRefused(data: seq<byte>, caps: AreaCaps)
    ensures var e, count := CapsError(data, caps), if caps.count == 0 then 128 else caps.count;
      var inside := 0 <= caps.index && 0 < count && caps.index + count <= |data|;
      && (e == Some(InvalidToken) <==> caps.token.None? || caps.token.value <= 0)
      && (e == Some(TokenOutside) <==> caps.token.Some? && 0 < caps.token.value && !inside)
      && (e.None? <==> caps.token.Some? && 0 < caps.token.value && inside
                       && FromLittleEndian(data[caps.index..caps.index + count]) == caps.token.value)
      && (e.Some? ==> e.value in {InvalidToken, TokenOutside, TokenMismatch})
  {
    hide FromLittleEndian;
  }

  /** A server that writes a token into the area and says where is accepted, and only
      one that knows the number that is there. The dictionary for this area counts if there
      is one, whatever else is said; a size of 128 need not be given. */
  method Handshake(area: Area, token: nat, index: nat, count: nat, claimed: nat, legacy: bool, brief: bool, other: AreaCaps, hasToken: bool)
    returns (r: Result<bool, MmapError>)
    requires 0 < token && 0 < claimed && 0 < count && index + count <= area.data.Length <= MAX_INT64 && token < Pow256(count)
    modifies area, area.data
    ensures r == if claimed == token then Ok(true) else Err(TokenMismatch)
    ensures area.enabled == (old(area.enabled) || claimed == token)
  {
    var err := WriteToken(area.data, Some(token), index, count);
    LittleEndianRoundTrip(token, count);
    assert area.data[..][index..index + count] == area.data[index..index + count];
    var caps := AreaCaps(None, Some(claimed), index, if brief && count == 128 then 0 else count);
    r := area.EnableFromCaps(Some(if legacy then ServerCaps(None, caps, true) else ServerCaps(Some(caps), other, hasToken)));
  }

  /** A server that describes no area, or one that it does not enable, is declined. */
  method Declined(area: Area, caps: Option<ServerCaps>) returns (r: Result<bool, MmapError>)
    requires caps.Some? ==>
      if caps.value.write.Some? then caps.value.write.value.enabled == Some(false)
      else caps.value.hasToken ==> caps.value.flat.enabled == Some(false)
    modifies area
    ensures r == Ok(false) && area.enabled == old(area.enabled)
  {
    r := area.EnableFromCaps(caps);
  }
}
