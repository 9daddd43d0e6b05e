/** The tar encoder behind the archive builder: members, padding, sequence numbers and the end marker. */
module Encode {
  import opened Octets
  import opened Framing
  import opened Source
  import opened Write
  import opened FilePayload
  import opened Archive
  import opened Numbers
  import opened PaxRecords

  datatype EncodeError = FramingRefused(error: FramingWriteError) | WriterFailed | SequenceOverflow

  /** Why a hook failed; a poisoning failure may have left part of a member in the output. */
  datatype HookFailure = EncoderFailure(error: EncodeError, poisons: bool) | PayloadFailure(reason: PayloadError)

  predicate Poisons(f: HookFailure) { f.PayloadFailure? || f.poisons }

  /** How an awaited hook ends: done, failed, or dropped at a stall by a caller that gave up. */
  datatype HookResult = HookDone | HookFailed(failure: HookFailure) | HookDropped

  /** Why framing or writing `m` as number `sequence` failed; only a failing writer poisons. */
  predicate Explains(f: HookFailure, sequence: U64, m: PaxMember)
  {
    match f
    case EncoderFailure(SequenceOverflow, poisons) => !poisons && sequence + 1 >= U64_LIMIT
    case EncoderFailure(FramingRefused(e), poisons) =>
      && !poisons
      && if ValidateMember(m).Some? then ValidateMember(m) == Some(e) else !FitsOctal(12, |RecordsBytes(MemberRecords(m))|)
    case EncoderFailure(WriterFailed, poisons) => poisons
    case PayloadFailure(_) => m.kind == Regular
  }

  datatype WriteResult = Written | WriteError | WriteDropped

  class TarEncoder {
    const writer: ByteSink
    var sequence: U64
    const framingBuffer: ByteBuffer

    constructor (writer: ByteSink)
      ensures this.writer == writer && sequence == 0 && fresh(framingBuffer)
    {
      this.writer, sequence := writer, 0;
      framingBuffer := new ByteBuffer();
    }

    /** Writes all of `bytes`; `patience` stalls are waited out before the caller drops the call. */
    method WriteAll(bytes: seq<Byte>, patience: nat) returns (r: WriteResult, left: nat)
      modifies writer
      ensures left <= patience
      ensures old(writer.written) <= writer.written
      ensures r.Written? ==> writer.written == old(writer.written) + bytes
    {
      left := patience;
      var at := 0;
      while at < |bytes|
        invariant at <= |bytes| && left <= patience && writer.written == old(writer.written) + bytes[..at]
        decreases |bytes| - at, left
      {
        var step := writer.PollWrite(bytes[at..]);
        match step
        case WritePending =>
          if left == 0 {
            return WriteDropped, 0;
          }
          left := left - 1;
        case WriteFailed => return WriteError, left;
        case Wrote(n) =>
          if n == 0 {
            return WriteError, left;
          }
          assert bytes[..at] + bytes[at..][..n] == bytes[..at + n];
          at := at + n;
      }
      assert bytes[..at] == bytes;
      return Written, left;
    }

    /** Frames and writes one member's headers. Only a whole framing advances the sequence. */
    method WriteMember(m: PaxMember, patience: nat) returns (r: HookResult, left: nat)
      modifies this`sequence, framingBuffer, writer
      ensures left <= patience && old(writer.written) <= writer.written
      ensures r.HookDone? ==>
                && ValidateMember(m).None? && FitsOctal(12, |RecordsBytes(MemberRecords(m))|)
                && sequence == old(sequence) + 1
                && |writer.written| == |old(writer.written)| + FramedLength(m)
                && Framed(old(sequence), m, writer.written[|old(writer.written)|..])
      ensures !r.HookDone? ==> sequence == old(sequence)
      ensures r.HookFailed? && !Poisons(r.failure) ==> writer.written == old(writer.written)
      ensures r.HookFailed? ==> r.failure.EncoderFailure? && Explains(r.failure, old(sequence), m)
      ensures r == HookFailed(EncoderFailure(SequenceOverflow, false)) <==> old(sequence) + 1 >= U64_LIMIT
    {
      hide RecordsBytes, MemberRecords, ValidateMember, FitsOctal, Framed, FramedLength;
      if sequence + 1 >= U64_LIMIT {
        return HookFailed(EncoderFailure(SequenceOverflow, false)), patience;
      }
      var error := FramePaxMemberInto(sequence, m, framingBuffer);
      if error.Some? {
        return HookFailed(EncoderFailure(FramingRefused(error.value), false)), patience;
      }
      FramedSize(sequence, m, framingBuffer.bytes);
      var written;
      written, left := WriteAll(framingBuffer.bytes, patience);
      match written
      case WriteDropped => return HookDropped, left;
      case WriteError => return HookFailed(EncoderFailure(WriterFailed, true)), left;
      case Written =>
        sequence := sequence + 1;
        assert writer.written[|old(writer.written)|..] == framingBuffer.bytes;
        return HookDone, left;
    }

    /** One whole entry behind what was there before, and the sequence moved by one. */
    ghost predicate EntryAdded(before: seq<Byte>, sequenceBefore: U64, e: Entry)
      reads this, writer
    {
      && ValidEntry(e) && sequence == sequenceBefore + 1
      && before <= writer.written && EntryWritten(sequenceBefore, e, writer.written[|before|..])
    }

    /** A regular file: framing, exactly its declared bytes, zero padding. */
    method WriteFileMember(path: Text, payload: FilePayload, executable: bool, patience: nat) returns (r: HookResult)
      requires payload.Valid() && payload.delivered == []
      modifies this`sequence, framingBuffer, writer, payload, if payload.source == null then {} else {payload.source}
      ensures r.HookDone? ==>
                && payload.size <= |payload.content|
                && EntryAdded(old(writer.written), old(sequence),
                              Entry(PaxMember(path, Regular, payload.size, None, executable), payload.content[..payload.size]))
      ensures r.HookFailed? && !Poisons(r.failure) ==>
                writer.written == old(writer.written) && sequence == old(sequence)
      ensures r.HookFailed? ==> Explains(r.failure, old(sequence), PaxMember(path, Regular, payload.size, None, executable))
      ensures r == HookFailed(PayloadFailure(SourceEndedEarly)) ==> |payload.content| < payload.size
    {
      hide EntryWritten, ValidEntry, Framed, RecordsBytes, MemberRecords, ValidateMember, FitsOctal, FramedLength, FilePayload.Valid;
      var m := PaxMember(path, Regular, payload.size, None, executable);
      ghost var before := writer.written;
      var left;
      r, left := WriteMember(m, patience);
      if !r.HookDone? {
        return;
      }
      ghost var framed := writer.written;
      r := WritePayload(payload, left);
      if r.HookDone? {
        PayloadComplete(before, framed, writer.written, old(sequence), m, payload.content[..payload.size]);
      }
    }

    /** The payload's bytes and the padding behind them; every failure here is poisoning. */
    method WritePayload(payload: FilePayload, patience: nat) returns (r: HookResult)
      requires payload.Valid() && payload.delivered == []
      modifies writer, payload, if payload.source == null then {} else {payload.source}
      ensures r.HookFailed? ==> Poisons(r.failure) && (r.failure.EncoderFailure? ==> r.failure.error == WriterFailed)
      ensures r == HookFailed(PayloadFailure(SourceEndedEarly)) ==> |payload.content| < payload.size
      ensures r.HookDone? ==>
                && payload.size <= |payload.content|
                && writer.written == old(writer.written) + NulPadded(payload.content[..payload.size], Padded(payload.size))
    {
      var left := patience;
      ghost var before := writer.written;
      hide FilePayload.Valid;
      r, left := WriteChunks(payload, left);
      if !r.HookDone? {
        return;
      }
      PaddingIsLeast(payload.size);
      var padding := Zeros(PaddingLength(payload.size));
      if padding != [] {
        var written;
        written, left := WriteAll(padding, left);
        match written {
          case WriteDropped => return HookDropped;
          case WriteError => return HookFailed(EncoderFailure(WriterFailed, true));
          case Written =>
        }
      }
      assert writer.written == before + payload.content[..payload.size] + padding;
      return HookDone;
    }

    method WriteChunks(payload: FilePayload, patience: nat) returns (r: HookResult, left: nat)
      requires payload.Valid() && payload.delivered == []
      modifies writer, payload, if payload.source == null then {} else {payload.source}
      ensures r.HookFailed? ==> Poisons(r.failure) && (r.failure.EncoderFailure? ==> r.failure.error == WriterFailed)
      ensures r == HookFailed(PayloadFailure(SourceEndedEarly)) ==> |payload.content| < payload.size
      ensures r.HookDone? ==>
                && payload.size <= |payload.content|
                && writer.written == old(writer.written) + payload.content[..payload.size]
    {
      hide FilePayload.Valid;
      left := patience;
      assert writer.written == old(writer.written) + payload.delivered;
      while true
        invariant payload.Valid() && payload.delivered <= payload.content
        invariant writer.written == old(writer.written) + payload.delivered
        decreases |payload.content| - |payload.delivered|, left
      {
        var chunk := payload.NextChunk();
        match chunk
        case ChunkPending =>
          if left == 0 {
            return HookDropped, 0;
          }
          left := left - 1;
        case ChunkEnd =>
          assert payload.delivered == payload.content[..payload.size];
          return HookDone, left;
        case ChunkFailed(error) => return HookFailed(PayloadFailure(error)), left;
        case Chunk(bytes) =>
          var written;
          written, left := WriteAll(bytes, left);
          match written
          case WriteDropped => return HookDropped, left;
          case WriteError => return HookFailed(EncoderFailure(WriterFailed, true)), left;
          case Written =>
      }
    }

    /** A member without payload. */
    method WriteBareMember(m: PaxMember, patience: nat) returns (r: HookResult)
      requires m.size == 0
      modifies this`sequence, framingBuffer, writer
      ensures r.HookDone? ==> EntryAdded(old(writer.written), old(sequence), Entry(m, []))
      ensures r.HookFailed? && !Poisons(r.failure) ==>
                writer.written == old(writer.written) && sequence == old(sequence)
      ensures r.HookFailed? ==> Explains(r.failure, old(sequence), m)
    {
      hide EntryWritten, ValidEntry, Framed, RecordsBytes, MemberRecords, ValidateMember, FitsOctal, FramedLength;
      ghost var before := writer.written;
      var left;
      r, left := WriteMember(m, patience);
      if r.HookDone? {
        assert writer.written == writer.written + NulPadded([], 0);
        PayloadComplete(before, writer.written, writer.written, old(sequence), m, []);
      }
    }

    method WriteDirectoryMember(path: Text, patience: nat) returns (r: HookResult)
      modifies this`sequence, framingBuffer, writer
      ensures r.HookDone? ==>
                EntryAdded(old(writer.written), old(sequence), Entry(PaxMember(path, Directory, 0, None, false), []))
      ensures r.HookFailed? && !Poisons(r.failure) ==>
                writer.written == old(writer.written) && sequence == old(sequence)
      ensures r.HookFailed? ==> Explains(r.failure, old(sequence), PaxMember(path, Directory, 0, None, false))
    {
      r := WriteBareMember(PaxMember(path, Directory, 0, None, false), patience);
    }

    method WriteSymbolicLinkMember(path: Text, target: Text, patience: nat) returns (r: HookResult)
      modifies this`sequence, framingBuffer, writer
      ensures r.HookDone? ==>
                EntryAdded(old(writer.written), old(sequence), Entry(PaxMember(path, SymbolicLink, 0, Some(target), false), []))
      ensures r.HookFailed? && !Poisons(r.failure) ==>
                writer.written == old(writer.written) && sequence == old(sequence)
      ensures r.HookFailed? ==> Explains(r.failure, old(sequence), PaxMember(path, SymbolicLink, 0, Some(target), false))
    {
      r := WriteBareMember(PaxMember(path, SymbolicLink, 0, Some(target), false), patience);
    }

    method FinishArchive(patience: nat) returns (r: HookResult)
      modifies writer
      ensures r.HookDone? ==> writer.written == old(writer.written) + END_MARKER
      ensures r.HookFailed? ==> r.failure == EncoderFailure(WriterFailed, true)
    {
      var written, _ := WriteAll(END_MARKER, patience);
      match written
      case WriteDropped => return HookDropped;
      case WriteError => return HookFailed(EncoderFailure(WriterFailed, true));
      case Written => return HookDone;
    }
  }

  lemma FramedSize(sequence: U64, m: PaxMember, bytes: seq<Byte>)
    requires Framed(sequence, m, bytes)
    ensures |bytes| == FramedLength(m)
  {
  }

  /** Framing followed by the padded payload is the whole entry. */
  lemma PayloadComplete(before: seq<Byte>, framed: seq<Byte>, after: seq<Byte>, sequence: U64, m: PaxMember, payload: seq<Byte>)
    requires before <= framed && |framed| == |before| + FramedLength(m) && Framed(sequence, m, framed[|before|..])
    requires ValidateMember(m).None? && FitsOctal(12, |RecordsBytes(MemberRecords(m))|) && |payload| == m.size
    requires after == framed + NulPadded(payload, Padded(|payload|))
    ensures ValidEntry(Entry(m, payload)) && before <= after && EntryWritten(sequence, Entry(m, payload), after[|before|..])
  {
    hide Framed, FramedLength, RecordsBytes, MemberRecords, ValidateMember, FitsOctal;
    var entry := after[|before|..];
    assert entry[..FramedLength(m)] == framed[|before|..];
    assert entry[FramedLength(m)..] == NulPadded(payload, Padded(|payload|));
  }
}
