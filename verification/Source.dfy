/** The asynchronous byte sources and sinks the codec is handed, as single poll steps. */
module Source {
  import opened Octets

  /** What one poll of a reader yields; no bytes means the end of the input. */
  datatype ReadPoll = ReadPending | ReadFailed | ReadBytes(bytes: seq<Byte>)

  /** A reader over a finite input that may split its bytes anywhere, stall, or fail. */
  class ByteSource {
    ghost const input: seq<Byte>
    var unread: seq<Byte>

    /** What is unread is a suffix of the input. */
    ghost predicate Valid()
      reads this
    {
      |unread| <= |input| && unread == input[|input| - |unread|..]
    }

    constructor (bytes: seq<Byte>)
      ensures Valid() && input == unread == bytes
    {
      input := bytes;
      unread := bytes;
    }

    /** One poll: any nonempty prefix up to `limit`, a stall, a failure, or the end. */
    method PollRead(limit: nat) returns (r: ReadPoll)
      requires Valid() && limit > 0
      modifies this
      ensures Valid()
      ensures !r.ReadBytes? ==> unread == old(unread)
      ensures r.ReadBytes? ==> |r.bytes| <= limit && old(unread) == r.bytes + unread
      ensures r.ReadBytes? && r.bytes == [] ==> old(unread) == []
    {
      if * {
        return ReadPending;
      }
      if * {
        return ReadFailed;
      }
      if unread == [] {
        return ReadBytes([]);
      }
      var n: nat :| 0 < n <= limit && n <= |unread|;
      r := ReadBytes(unread[..n]);
      unread := unread[n..];
    }
  }

  /** What one poll of a writer yields. */
  datatype WritePoll = WritePending | WriteFailed | Wrote(n: nat)

  /** A writer that may take any part of what it is given, stall, or fail. */
  class ByteSink {
    var written: seq<Byte>

    constructor ()
      ensures written == []
    {
      written := [];
    }

    method PollWrite(bytes: seq<Byte>) returns (r: WritePoll)
      modifies this
      ensures r.Wrote? ==> r.n <= |bytes| && written == old(written) + bytes[..r.n]
      ensures !r.Wrote? ==> written == old(written)
    {
      if * {
        return WritePending;
      }
      if * {
        return WriteFailed;
      }
      var n: nat :| n <= |bytes|;
      written := written + bytes[..n];
      return Wrote(n);
    }
  }
}
