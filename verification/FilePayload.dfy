/** The exact-size payload of a file being added to an archive. */
module FilePayload {
  import opened Octets
  import opened Source

  const FILE_PAYLOAD_CHUNK_BYTES: nat := 2 * 1024 * 1024

  datatype PayloadError = SourceFailed | SourceEndedEarly

  datatype ChunkPoll = ChunkPending | ChunkEnd | Chunk(bytes: seq<Byte>) | ChunkFailed(error: PayloadError)

  /**
   * A payload that is either at hand or read from a source in chunks. Read progress is kept in the object,
   * so an abandoned call loses nothing. `content` is everything the source had when the payload was made.
   */
  class FilePayload {
    const size: U64
    var started: bool
    const source: ByteSource?
    /** The bytes at hand, until they are taken; unused when there is a source. */
    var atHand: Option<seq<Byte>>
    var buffer: seq<Byte>
    var remaining: U64
    var filled: nat
    ghost const content: seq<Byte>
    ghost var delivered: seq<Byte>

    function ChunkLength(): nat
      reads this
    {
      Min(remaining, FILE_PAYLOAD_CHUNK_BYTES)
    }

    /** What is delivered, what is buffered and what is unread make up the content, in order. */
    ghost predicate Valid()
      reads this, if source == null then {} else {source}
    {
      && (!started ==> delivered == [] && (source != null ==> filled == 0))
      && if source == null then
        && |content| == size
        && (atHand.Some? ==> atHand.value == content && delivered == [])
        && (atHand.None? ==> delivered == content)
      else
        && source.Valid() && |delivered| + remaining == size
        && filled <= ChunkLength() && filled <= |buffer| && (filled > 0 ==> |buffer| == ChunkLength())
        && content == delivered + buffer[..filled] + source.unread
    }

    constructor Streaming(size: U64, source: ByteSource, buffer: seq<Byte>)
      requires source.Valid()
      ensures Valid() && !started && delivered == [] && content == source.unread && this.size == size && this.source == source
    {
      this.size, this.source := size, source;
      started, atHand := false, None;
      this.buffer, remaining, filled := buffer, size, 0;
      content, delivered := source.unread, [];
    }

    constructor Buffered(bytes: seq<Byte>)
      requires |bytes| < U64_LIMIT
      ensures Valid() && !started && delivered == [] && content == bytes && size == |bytes| && source == null
    {
      size, source := |bytes|, null;
      started, atHand := false, Some(bytes);
      buffer, remaining, filled := [], |bytes|, 0;
      content, delivered := bytes, [];
    }

    /** The next chunk. The chunks delivered are always a prefix of the content, and all `size` bytes at the end. */
    method NextChunk() returns (r: ChunkPoll)
      requires Valid()
      modifies this, if source == null then {} else {source}
      ensures Valid() && started && delivered <= content
      ensures delivered == old(delivered) + if r.Chunk? then r.bytes else []
      ensures r.Chunk? ==> r.bytes != []
      ensures r.ChunkEnd? ==> |delivered| == size
      ensures r == ChunkFailed(SourceEndedEarly) ==> |content| < size
    {
      started := true;
      if source == null {
        var bytes := atHand;
        atHand := None;
        if bytes.None? || bytes.value == [] {
          return ChunkEnd;
        }
        delivered := content;
        return Chunk(bytes.value);
      }
      r := ReadStreamingChunk();
    }

    /** Fills one chunk from the source, resuming where an abandoned call stopped. */
    method ReadStreamingChunk() returns (r: ChunkPoll)
      requires Valid() && source != null && started
      modifies this`buffer, this`remaining, this`filled, this`delivered, source
      ensures Valid() && delivered <= content
      ensures delivered == old(delivered) + if r.Chunk? then r.bytes else []
      ensures r.Chunk? ==> r.bytes != []
      ensures r.ChunkEnd? ==> |delivered| == size
      ensures r == ChunkFailed(SourceEndedEarly) ==> |content| < size
    {
      if remaining == 0 {
        return ChunkEnd;
      }
      var chunkLen := ChunkLength();
      buffer := Resized(buffer, chunkLen);
      assert buffer[..filled] == old(buffer[..filled]);
      hide Resized;
      while filled < chunkLen
        invariant Filling(chunkLen) && delivered == old(delivered) && remaining == old(remaining)
        decreases chunkLen - filled
      {
        var read := ReadSome(chunkLen);
        match read
        case ReadPending => return ChunkPending;
        case ReadFailed => return ChunkFailed(SourceFailed);
        case ReadBytes(bytes) =>
          if bytes == [] {
            return ChunkFailed(SourceEndedEarly);
          }
      }
      r := TakeChunk();
    }

    /** The buffer has the chunk's length and is filled from the front. */
    ghost predicate Filling(chunkLen: nat)
      reads this, if source == null then {} else {source}
    {
      Valid() && source != null && started && remaining > 0 && filled <= chunkLen == |buffer| == ChunkLength()
    }

    /** One read behind the bytes already in the buffer. */
    method ReadSome(chunkLen: nat) returns (read: ReadPoll)
      requires Filling(chunkLen) && filled < chunkLen
      modifies this`buffer, this`filled, source
      ensures Filling(chunkLen)
      ensures filled == old(filled) + if read.ReadBytes? then |read.bytes| else 0
      ensures read == ReadBytes([]) ==> |content| < size
    {
      ghost var before, unread := buffer[..filled], source.unread;
      read := source.PollRead(chunkLen - filled);
      if read.ReadBytes? {
        var tail := buffer[filled + |read.bytes|..];
        buffer := buffer[..filled] + read.bytes + tail;
        filled := filled + |read.bytes|;
        assert buffer[..filled] == before + read.bytes;
        assert delivered + before + unread == delivered + (before + read.bytes) + source.unread;
      }
    }

    /** A full buffer is handed out whole. */
    method TakeChunk() returns (r: ChunkPoll)
      requires Filling(|buffer|) && filled == |buffer|
      modifies this`remaining, this`filled, this`delivered
      ensures Valid() && delivered <= content
      ensures r.Chunk? && r.bytes != [] && delivered == old(delivered) + r.bytes
    {
      assert buffer[..filled] == buffer && buffer[..0] == [];
      remaining := remaining - |buffer|;
      filled := 0;
      delivered := delivered + buffer;
      return Chunk(buffer);
    }

    /** Exchanges the reusable buffer: before the first read, or when the payload is done with. */
    method SwapBuffer(other: seq<Byte>) returns (was: seq<Byte>)
      modifies this`buffer
      ensures old(Valid()) && (source == null || filled == 0) ==> Valid()
      ensures if source == null then was == other && buffer == old(buffer) else was == old(buffer) && buffer == other
    {
      if source == null {
        return other;
      }
      was := buffer;
      buffer := other;
      assert other[..0] == was[..0];
    }
  }

  method BufferedPayload(bytes: seq<Byte>) returns (payload: FilePayload)
    requires |bytes| < U64_LIMIT
    ensures fresh(payload) && payload.Valid() && payload.delivered == [] && payload.source == null
    ensures payload.content == bytes && payload.size == |bytes|
  {
    payload := new FilePayload.Buffered(bytes);
  }

  method StreamingPayload(size: U64, available: seq<Byte>) returns (payload: FilePayload)
    ensures fresh(payload) && payload.Valid() && payload.delivered == [] && payload.source != null && fresh(payload.source)
    ensures payload.content == available && payload.size == size
  {
    var source := new ByteSource(available);
    payload := new FilePayload.Streaming(size, source, []);
  }

  /** A vector cut or zero-extended to a length. */
  function Resized(s: seq<Byte>, n: nat): (r: seq<Byte>)
    ensures |r| == n && forall i :: 0 <= i < n && i < |s| ==> r[i] == s[i]
  {
    if n <= |s| then s[..n] else s + Zeros(n - |s|)
  }
}
