/** Members assembled from frames: extensions attached to the header they describe, and the payload cursor. */
module Logical {
  import opened Octets
  import opened Numbers
  import opened Header
  import opened PaxRecords
  import opened Pax
  import opened Framing
  import opened Source
  import opened TarStream

  datatype PaxExtension = PaxExtension(position: U64, kind: PaxKind, records: seq<PaxRecord>)

  datatype GnuMetadata = GnuMetadata(position: U64, payload: seq<Byte>)

  datatype PendingExtensions = PendingExtensions(
    globalPax: seq<PaxExtension>,
    localPax: Option<PaxExtension>,
    longName: Option<GnuMetadata>,
    longLink: Option<GnuMetadata>)

  const NO_EXTENSIONS := PendingExtensions([], None, None, None)

  /** The extension payload being collected. */
  datatype ExtensionPayload =
    | PaxPayload(position: U64, paxKind: PaxKind)
    | GnuPayload(position: U64, gnuKind: GnuKind, remaining: U64, payload: seq<Byte>)

  datatype MemberExtensions =
    | PaxState(globals: seq<PaxRecord>, globalExtensions: seq<PaxExtension>, local: Option<PaxExtension>)
    | GnuState(longName: Option<GnuMetadata>, longLink: Option<GnuMetadata>)

  datatype LogicalHeader = LogicalHeader(
    position: U64, format: ArchiveFormat, kind: UstarKind, declaredSize: U64, effectiveSize: U64,
    mode: Option<U64>, uid: Option<U64>, gid: Option<U64>, mtime: Option<U64>,
    uname: seq<Byte>, gname: seq<Byte>, path: seq<Byte>, linkName: seq<Byte>)

  /** The header's own path: GNU headers have no prefix field. */
  function HeaderPath(h: MemberHeader): seq<Byte>
  {
    var name := TrimNul(h.block[..NAME_END]);
    if h.format == GnuFormat then name
    else
      var prefix := TrimNul(h.block[DEVMINOR_END..PREFIX_END]);
      if prefix == [] then name else prefix + [SLASH] + name
  }

  function LogicalHeaderOf(h: MemberHeader): LogicalHeader
  {
    LogicalHeader(h.position, h.format, h.kind, h.declaredSize, h.effectiveSize, h.mode, h.uid, h.gid, h.mtime,
                  TrimNul(h.block[IDENTITY_END..UNAME_END]), TrimNul(h.block[UNAME_END..GNAME_END]),
                  HeaderPath(h), TrimNul(h.block[157..LINK_NAME_END]))
  }

  /** The assembling reader's own state; `globals` is its copy of the global records. */
  datatype Assembly = Assembly(pending: PendingExtensions, extension: Option<ExtensionPayload>, globals: seq<PaxRecord>)

  function SetGnu(pending: PendingExtensions, kind: GnuKind, metadata: GnuMetadata): PendingExtensions
  {
    if kind == LongName then pending.(longName := Some(metadata)) else pending.(longLink := Some(metadata))
  }

  /** Takes in an extension header or one block of extension payload. */
  function Absorb(a: Assembly, frame: Frame): Result<Assembly, FrameError>
    requires !frame.HeaderFrame?
  {
    match frame
    case PaxFrame(position, _, kind, _) => Ok(a.(extension := Some(PaxPayload(position, kind))))
    case GnuFrame(position, _, kind, size) =>
      if size == 0 then Ok(a.(pending := SetGnu(a.pending, kind, GnuMetadata(position, []))))
      else Ok(a.(extension := Some(GnuPayload(position, kind, size, []))))
    case DataFrame(position, block, len, owner, completed) => AbsorbData(a, position, block, len, owner, completed)
  }

  function AbsorbData(a: Assembly, at: U64, block: Block, len: nat, owner: DataOwner, completed: Option<seq<PaxRecord>>):
    Result<Assembly, FrameError>
  {
    match a.extension
    case None => Fail(at, UnexpectedOrder(ExtensionOrMemberHeader, UnattachedPayload))
    case Some(PaxPayload(position, kind)) =>
      if owner != PaxData(kind) then Fail(at, UnexpectedOrder(PaxExtensionPayload, DifferentPayload))
      else if completed.None? then Ok(a)
      else
        var extension := PaxExtension(position, kind, completed.value);
        if kind == Global then
          Ok(Assembly(a.pending.(globalPax := a.pending.globalPax + [extension]), None, a.globals + completed.value))
        else Ok(Assembly(a.pending.(localPax := Some(extension)), None, a.globals))
    case Some(GnuPayload(position, kind, remaining, payload)) =>
      if owner != GnuData(kind) then Fail(at, UnexpectedOrder(GnuMetadataPayload, DifferentPayload))
      else if len > remaining || len > BLOCK_SIZE then Fail(at, UnexpectedOrder(GnuMetadataPayload, OversizedPayload))
      else
        var collected := payload + block[..len];
        if remaining == len then Ok(Assembly(SetGnu(a.pending, kind, GnuMetadata(position, collected)), None, a.globals))
        else Ok(a.(extension := Some(GnuPayload(position, kind, remaining - len, collected))))
  }

  /** The extensions handed out with a member header. */
  function ExtensionsFor(a: Assembly, format: ArchiveFormat): MemberExtensions
  {
    match format
    case PaxFormat => PaxState(Slots(a.globals), a.pending.globalPax, a.pending.localPax)
    case GnuFormat => GnuState(a.pending.longName, a.pending.longLink)
  }

  function Cleared(a: Assembly): Assembly { a.(pending := NO_EXTENSIONS) }

  datatype MemberScan =
    | MemberFound(machine: Machine, assembly: Assembly, header: LogicalHeader, extensions: MemberExtensions, next: U64, rest: seq<Byte>)
    | MemberEnd
    | MemberFail(error: FrameError)

  /** The next member of an input given all at once, from the current frame on. */
  function NextMember(m: Machine, a: Assembly, position: U64, bytes: seq<Byte>): MemberScan
    decreases |bytes|
  {
    match NextFrame(m, position, bytes)
    case ScanFail(e) => MemberFail(e)
    case ScanEnd(_) => MemberEnd
    case ScanFrame(m', frame, next, rest) =>
      FramesAreLossless(m, position, bytes);
      if frame.HeaderFrame? then
        MemberFound(m', Cleared(a), LogicalHeaderOf(frame.header), ExtensionsFor(a, frame.header.format), next, rest)
      else
        match Absorb(a, frame)
        case Err(e) => MemberFail(e)
        case Ok(a') => NextMember(m', a', next, rest)
  }

  // -------------------------------------------------------------- lock step

  /** The assembling reader knows exactly what the block machine is waiting for. */
  predicate InStep(m: Machine, a: Assembly)
  {
    && a.globals == m.globals
    && match m.state
       case ReadingPax(kind, headerPosition, _, _) =>
         a.extension == Some(PaxPayload(headerPosition, kind)) && a.pending.localPax.None? && NoGnu(a)
       case AwaitingUstarHeader(records) =>
         a.extension.None? && a.pending.localPax.Some? && a.pending.localPax.value.records == records && NoGnu(a)
       case ReadingGnu(kind, remaining, pending) =>
         && a.extension.Some? && a.extension.value.GnuPayload?
         && a.extension.value.gnuKind == kind && a.extension.value.remaining == remaining
         && a.pending.localPax.None?
         && (pending.longName <==> kind == LongName || a.pending.longName.Some?)
         && (pending.longLink <==> kind == LongLink || a.pending.longLink.Some?)
       case AwaitingGnuMember(pending) =>
         && a.extension.None? && a.pending.localPax.None?
         && (pending.longName <==> a.pending.longName.Some?)
         && (pending.longLink <==> a.pending.longLink.Some?)
       case Failed => true
       case _ => a.extension.None? && a.pending.localPax.None? && NoGnu(a)
  }

  predicate NoGnu(a: Assembly)
  {
    a.pending.longName.None? && a.pending.longLink.None?
  }

  /**
   * Every frame the machine yields is one the assembling reader accepts, and both stay in step:
   * none of the reader's own ordering errors can occur.
   */
  lemma StepsStayTogether(m: Machine, a: Assembly, position: U64, block: Block)
    requires InStep(m, a) && !m.state.ReadingMember?
    requires Step(m, position, block).Ok? && Step(m, position, block).value.1.Some?
    ensures var (m', frame) := Step(m, position, block).value;
            if frame.value.HeaderFrame? then InStep(m', Cleared(a))
            else Absorb(a, frame.value).Ok? && InStep(m', Absorb(a, frame.value).value)
  {
    hide ParseHeader, ParsePayload, GlobalCharset, UstarHeader, GnuHeader, IsZeroBlock, EffectiveRecord;
  }

  lemma FramesStayTogether(m: Machine, a: Assembly, position: U64, bytes: seq<Byte>)
    requires InStep(m, a) && !m.state.ReadingMember? && NextFrame(m, position, bytes).ScanFrame?
    ensures var scan := NextFrame(m, position, bytes);
            if scan.frame.HeaderFrame? then
              InStep(scan.machine, Cleared(a)) && scan.machine.state == MemberPayloadState(scan.frame.header.effectiveSize)
            else
              && Absorb(a, scan.frame).Ok? && InStep(scan.machine, Absorb(a, scan.frame).value)
              && !scan.machine.state.ReadingMember?
    ensures !NextFrame(m, position, bytes).machine.state.Failed?
  {
    hide Step, Absorb, InStep;
    var block := bytes[..BLOCK_SIZE];
    StepKeepsBlock(m, position, block);
    if Step(m, position, block).value.1.None? {
      NoFrameInEndMarker(Step(m, position, block).value.0, position + BLOCK_SIZE, bytes[BLOCK_SIZE..]);
    } else {
      StepsStayTogether(m, a, position, block);
      StepOwnership(m, position, block);
    }
  }

  /** The size that framed a pax member is the one its own attached state gives, or else the header's. */
  lemma AttachedStateGivesSize(m: Machine, a: Assembly, position: U64, block: Block)
    requires InStep(m, a) && Step(m, position, block).Ok?
    requires Step(m, position, block).value.1.Some? && Step(m, position, block).value.1.value.HeaderFrame?
    requires Step(m, position, block).value.1.value.header.format == PaxFormat
    ensures var h := Step(m, position, block).value.1.value.header;
            var state := ExtensionsFor(a, PaxFormat);
            EffectiveSize(h.position, h.declaredSize, StateRecord(state, SizeKey)) == Ok(h.effectiveSize)
  {
    hide ParseHeader, ParsePayload, GlobalCharset, UstarHeader, GnuHeader, LastRecord, Slots, EffectiveSize, IsZeroBlock;
    SlotsAnswerAsHistory(a.globals);
    HeadersTakeSize(position, block);
  }

  /** The sizes in a member header are the block's own and the one in effect. */
  lemma HeadersTakeSize(position: U64, block: Block)
    ensures forall parsed, record, allowNul :: UstarHeader(position, block, parsed, record, allowNul).Ok? ==>
              var h := UstarHeader(position, block, parsed, record, allowNul).value;
              h.format == PaxFormat && h.position == position && EffectiveSize(position, h.declaredSize, record) == Ok(h.effectiveSize)
    ensures forall parsed, link, allowNul :: GnuHeader(position, block, parsed, link, allowNul).Ok? ==>
              GnuHeader(position, block, parsed, link, allowNul).value.format == GnuFormat
  {
    hide NumericFields, KindOf, EffectiveSize;
  }

  /** The record in force for one member. */
  function StateRecord(state: MemberExtensions, key: PaxKeyword): Option<PaxRecord>
    requires state.PaxState?
  {
    EffectiveRecord(if state.local.Some? then Some(state.local.value.records) else None, state.globals, key)
  }

  // ------------------------------------------------------ the payload cursor

  datatype PayloadStep =
    | PayloadStalled
    | PayloadExhausted
    | PayloadBlockRead(position: U64, block: Block, len: nat)
    | PayloadChunkRead(bytes: seq<Byte>)
    | PayloadError(error: FrameError)

  /** Streams one member's payload; `delivered` is everything handed out since the member's header. */
  class PayloadReader {
    const stream: TarStream
    var remaining: U64
    ghost var start: nat
    ghost var size: nat
    ghost var delivered: seq<Byte>

    /** Delivery so far: a prefix of the payload's place in the input, and the rest still to come. */
    ghost predicate Progress()
      reads this
    {
      && |delivered| + remaining == size
      && start + |delivered| <= |stream.inner.input|
      && delivered == stream.inner.input[start..start + |delivered|]
    }

    /** This cursor's count is the stream's count of undelivered bytes. */
    ghost predicate Valid()
      reads this, stream, stream.inner, stream.block, stream.globals
    {
      && stream.Valid() && Progress()
      && (!stream.state.Failed? ==>
            && remaining == stream.Remaining()
            && (remaining > 0 ==> stream.Settled() && |delivered| % BLOCK_SIZE == 0 && stream.Offset() == start + |delivered|))
    }

    /** Where the current member's padded payload ends. */
    ghost function EndOffset(): nat
      reads this, stream
    {
      stream.Offset() + Padded(remaining)
    }

    constructor (s: TarStream)
      requires s.Valid() && s.chunkState.None? && s.state.AwaitingHeader?
      ensures Valid() && stream == s && remaining == 0
    {
      stream, remaining := s, 0;
      start, size, delivered := 0, 0, [];
    }

    /** A member header was read: its payload starts at the stream's position. */
    method StartPayload(effectiveSize: U64)
      requires stream.Valid() && stream.chunkState.None? && !stream.state.Failed?
      requires stream.state == MemberPayloadState(effectiveSize)
      modifies this
      ensures Valid() && delivered == [] && size == remaining == effectiveSize && start == stream.Offset()
    {
      remaining := effectiveSize;
      size, start, delivered := effectiveSize, stream.Offset(), [];
    }

    /** The next lossless block; `len` of its bytes are payload. */
    method NextPayloadBlock() returns (r: PayloadStep)
      requires Valid()
      modifies this`remaining, this`delivered, stream`position, stream`blockLen, stream`state, stream`chunkBuffer,
               stream`chunkState, stream.inner, stream.block
      ensures Valid() && start == old(start) && size == old(size)
      ensures r.PayloadStalled? || r.PayloadExhausted? || r.PayloadBlockRead? || r.PayloadError?
      ensures r.PayloadExhausted? <==> old(remaining) == 0
      ensures r.PayloadExhausted? ==>
                stream.state == old(stream.state) && EndOffset() == old(EndOffset()) && remaining == 0 && delivered == old(delivered)
      ensures r.PayloadStalled? || r.PayloadError? ==> delivered == old(delivered) && remaining == old(remaining)
      ensures r.PayloadBlockRead? ==>
                r.len == Min(old(remaining), BLOCK_SIZE) && delivered == old(delivered) + r.block[..r.len]
      ensures r.PayloadStalled? || r.PayloadBlockRead? ==> EndOffset() == old(EndOffset()) && (stream.state.Failed? ==> old(stream.state.Failed?))
      ensures r.PayloadError? ==>
                stream.state.Failed? && PayloadFault(r.error, remaining, old(stream.Offset()), |stream.inner.input|, old(stream.state))
    {
      if remaining == 0 {
        return PayloadExhausted;
      }
      ghost var offset, unread := stream.Offset(), stream.Unread();
      assert !stream.state.Failed? ==> offset <= |stream.inner.input| && unread == stream.inner.input[offset..];
      hide TarStream.ChunkValid, TarStream.Valid, TarStream.Readable, TarStream.Unread, TarStream.Remaining, TarStream.Offset;
      hide Handed, ReadFailure, Padded, PayloadFault, Progress;
      var read := stream.ReadMemberBlock();
      match read
      case PayloadPending => return PayloadStalled;
      case PayloadFailed(e) =>
        FailureIsFault(e, remaining, offset, unread, stream.inner.input, old(stream.state));
        return PayloadError(e);
      case PayloadBlock(position, block, len) =>
        Record(block[..len], offset, unread);
        return PayloadBlockRead(position, block, len);
    }

    /** The next run of payload bytes of any target length. */
    method NextPayloadChunk(target: U64) returns (r: PayloadStep)
      requires Valid()
      modifies this`remaining, this`delivered, stream`position, stream`blockLen, stream`state, stream`chunkBuffer,
               stream`chunkStart, stream`chunkPhysical, stream`chunkMeaningful, stream`chunkState, stream.inner, stream.block
      ensures Valid()
      ensures r.PayloadStalled? || r.PayloadExhausted? || r.PayloadChunkRead? || r.PayloadError?
      ensures r.PayloadExhausted? <==> old(remaining) == 0
      ensures r.PayloadExhausted? ==>
                && stream.state == old(stream.state) && stream.Offset() == old(stream.Offset())
                && stream.chunkState == old(stream.chunkState) && remaining == 0 && delivered == old(delivered)
                && EndOffset() == old(EndOffset())
      ensures r.PayloadStalled? || r.PayloadError? ==> delivered == old(delivered) && remaining == old(remaining)
      ensures r.PayloadStalled? ==> stream.Offset() == old(stream.Offset())
      ensures r.PayloadChunkRead? ==>
                && 0 < |r.bytes| <= old(remaining) && delivered == old(delivered) + r.bytes && stream.Settled()
                && remaining == old(remaining) - |r.bytes|
                && (remaining > 0 ==> |r.bytes| % BLOCK_SIZE == 0 && stream.Offset() == old(stream.Offset()) + |r.bytes|)
                && |r.bytes| == old(stream.DueBytes(target))
                && (|r.bytes| >= Min(old(remaining), target) <==> old(stream.ReachesTarget(target)))
      ensures r.PayloadStalled? || r.PayloadChunkRead? ==> EndOffset() == old(EndOffset()) && !stream.state.Failed?
      ensures old(stream.state.Failed?) && old(remaining) > 0 ==> r.PayloadError?
      ensures r.PayloadError? ==>
                stream.state.Failed? && PayloadFault(r.error, remaining, old(stream.Offset()), |stream.inner.input|, old(stream.state))
    {
      if remaining == 0 {
        return PayloadExhausted;
      }
      ghost var offset, unread := stream.Offset(), stream.Unread();
      assert !stream.state.Failed? ==> offset <= |stream.inner.input| && unread == stream.inner.input[offset..];
      hide TarStream.ChunkValid, TarStream.Valid, TarStream.Readable, TarStream.Unread, TarStream.Remaining, TarStream.Offset;
      hide Handed, ReadFailure, Padded, PayloadFault, Progress;
      var read := stream.ReadMemberChunk(target);
      match read
      case PayloadPending => return PayloadStalled;
      case PayloadFailed(e) =>
        FailureIsFault(e, remaining, offset, unread, stream.inner.input, old(stream.state));
        return PayloadError(e);
      case PayloadChunk(bytes) =>
        Record(bytes, offset, unread);
        return PayloadChunkRead(bytes);
    }

    /** Discards what is left of the payload; the padded payload is then behind the stream. */
    method DrainPayload() returns (r: PayloadStep)
      requires Valid()
      modifies this`remaining, this`delivered, stream`position, stream`blockLen, stream`state, stream`chunkBuffer,
               stream`chunkStart, stream`chunkPhysical, stream`chunkMeaningful, stream`chunkState, stream.inner, stream.block
      ensures Valid() && (r.PayloadStalled? || r.PayloadExhausted? || r.PayloadError?)
      ensures r.PayloadExhausted? ==> remaining == 0
      ensures r.PayloadStalled? ==> remaining > 0
      ensures r.PayloadExhausted? && old(remaining) > 0 ==> stream.Settled()
      ensures !r.PayloadError? ==> EndOffset() == old(EndOffset()) && (stream.state.Failed? ==> old(stream.state.Failed?))
      ensures old(remaining) == 0 ==> r.PayloadExhausted? && stream.state == old(stream.state)
      ensures r.PayloadError? ==>
                stream.state.Failed? && PayloadFault(r.error, old(remaining), old(stream.Offset()), |stream.inner.input|, old(stream.state))
    {
      hide TarStream.ChunkValid, TarStream.Valid, TarStream.Readable, TarStream.Unread, TarStream.Remaining, TarStream.Offset;
      hide Padded, PayloadFault, Progress;
      ghost var failed := stream.state.Failed?;
      while true
        invariant Valid() && remaining <= old(remaining) && EndOffset() == old(EndOffset())
        invariant remaining > 0 ==>
                    && (old(remaining) - remaining) % BLOCK_SIZE == 0
                    && stream.Offset() == old(stream.Offset()) + (old(remaining) - remaining)
        invariant remaining == old(remaining) ==> stream.state == old(stream.state)
        invariant stream.state.Failed? ==> failed
        invariant remaining < old(remaining) ==> stream.Settled()
        decreases remaining
      {
        ghost var left, offset, state := remaining, stream.Offset(), stream.state;
        r := NextPayloadChunk(PAYLOAD_DRAIN_CHUNK_BYTES);
        match r
        case PayloadChunkRead(_) =>
        case PayloadStalled => return;
        case PayloadExhausted => return;
        case PayloadError(e) =>
          SameFault(e, old(remaining), old(stream.Offset()), left, |stream.inner.input|, state, old(stream.state));
          return;
      }
    }

    /** Counts bytes just handed out by the stream. */
    method Record(bytes: seq<Byte>, ghost offset: nat, ghost unread: seq<Byte>)
      requires stream.Valid() && stream.Settled() && Progress() && !stream.state.Failed?
      requires offset == start + |delivered| <= |stream.inner.input| && unread == stream.inner.input[offset..]
      requires |delivered| % BLOCK_SIZE == 0
      requires Handed(bytes, remaining, offset, unread, stream.Remaining(), stream.Offset(), stream.Unread())
      modifies this`remaining, this`delivered
      ensures Valid() && remaining == old(remaining) - |bytes| && delivered == old(delivered) + bytes
      ensures 0 < |bytes| && EndOffset() == offset + Padded(old(remaining))
      ensures remaining > 0 ==> |bytes| % BLOCK_SIZE == 0 && stream.Offset() == offset + |bytes|
    {
      hide Handed, Padded, TarStream.Unread, TarStream.Remaining, TarStream.ChunkValid;
      HandedOn(bytes, remaining, offset, unread, stream.Remaining(), stream.Offset(), stream.Unread(), stream.inner.input);
      Delivered(stream.inner.input, start, delivered, bytes);
      remaining := remaining - |bytes|;
      delivered := delivered + bytes;
    }
  }

  /** A payload read fails only by I/O, in a reader that had already failed, or because the payload is not all there. */
  ghost predicate PayloadFault(e: FrameError, remaining: nat, offset: nat, inputLen: nat, state: State)
  {
    || e.fault == IoFailure
    || state.Failed?
    || (offset + Padded(remaining) >= U64_LIMIT && e.fault == Overflow)
    || Truncated(e, remaining, offset, inputLen)
  }

  /** The report of a payload cut short: where its last whole block ends, and what is missing. */
  ghost predicate Truncated(e: FrameError, remaining: nat, offset: nat, inputLen: nat)
  {
    && offset <= inputLen < offset + Padded(remaining)
    && var partial := (inputLen - offset) % BLOCK_SIZE;
    && e.position == inputLen - partial
    && e.fault == if partial > 0 then IncompleteBlock(partial) else TruncatedPayload(MemberData, remaining - (inputLen - offset))
  }

  const PAYLOAD_DRAIN_CHUNK_BYTES: U64 := 1024 * 1024

  /** Reading part of a payload first does not change how its truncation is reported. */
  lemma SameFault(e: FrameError, remaining: nat, offset: nat, left: nat, inputLen: nat, state: State, before: State)
    requires left <= remaining && (remaining - left) % BLOCK_SIZE == 0
    requires PayloadFault(e, left, offset + (remaining - left), inputLen, state)
    requires state.Failed? ==> before.Failed?
    ensures PayloadFault(e, remaining, offset, inputLen, before)
  {
    hide Truncated, Padded;
    assert offset + (remaining - left) + Padded(left) == offset + Padded(remaining) by { PaddedAfter(remaining, left); }
    if Truncated(e, left, offset + (remaining - left), inputLen) {
      SameTruncation(e, remaining, offset, left, inputLen);
    }
  }

  lemma PaddedAfter(n: nat, left: nat)
    requires left <= n && (n - left) % BLOCK_SIZE == 0
    ensures Padded(n) == (n - left) + Padded(left)
  {
  }

  lemma SameTruncation(e: FrameError, remaining: nat, offset: nat, left: nat, inputLen: nat)
    requires left <= remaining && (remaining - left) % BLOCK_SIZE == 0
    requires Truncated(e, left, offset + (remaining - left), inputLen)
    ensures Truncated(e, remaining, offset, inputLen)
  {
    PaddedAfter(remaining, left);
    hide Padded;
    var k := (remaining - left) / BLOCK_SIZE;
    assert remaining - left == BLOCK_SIZE * k;
    assert (inputLen - offset) % BLOCK_SIZE == (inputLen - (offset + (remaining - left))) % BLOCK_SIZE;
  }

  lemma FailureIsFault(e: FrameError, remaining: nat, offset: nat, unread: seq<Byte>, input: seq<Byte>, state: State)
    requires !state.Failed? ==> remaining > 0 && ReadFailure(e, remaining, offset, unread, 0)
    requires !state.Failed? ==> offset <= |input| && unread == input[offset..]
    ensures PayloadFault(e, remaining, offset, |input|, state)
  {
  }

  lemma HandedOn(bytes: seq<Byte>, remaining: nat, offset: nat, unread: seq<Byte>, remaining': nat, offset': nat, unread': seq<Byte>, input: seq<Byte>)
    requires Handed(bytes, remaining, offset, unread, remaining', offset', unread')
    ensures 0 < |bytes| <= remaining && remaining' == remaining - |bytes|
    ensures offset' + Padded(remaining') == offset + Padded(remaining)
    ensures remaining' > 0 ==> offset' == offset + |bytes| && |bytes| % BLOCK_SIZE == 0
    ensures offset <= |input| && unread == input[offset..] ==>
              offset + |bytes| <= |input| && bytes == input[offset..offset + |bytes|]
  {
  }

  lemma Delivered(input: seq<Byte>, start: nat, before: seq<Byte>, bytes: seq<Byte>)
    requires start + |before| + |bytes| <= |input|
    requires before == input[start..start + |before|] && bytes == input[start + |before|..start + |before| + |bytes|]
    ensures before + bytes == input[start..start + |before + bytes|]
  {
  }

  /** One call a consumer may make on a payload; a call that stalls may be dropped and followed by any other. */
  datatype PayloadCall = BlockCall | ChunkCall(target: U64) | SkipCall

  /** How a consumer's use of a payload ends; a skip uses the payload up, whether it finishes or is dropped. */
  datatype PayloadUse = ReadToEnd | SkippedRest | SkipDropped | LeftOff | BrokenOff(error: FrameError)

  /**
   * Any interleaving of block, chunk and skip calls, over any way the input arrives and with any calls abandoned,
   * yields the member's payload from the front: nothing lost, repeated or reordered, and all of it at the end.
   * However it stops without failing, the payload ends where it always did, for the drain before the next member.
   */
  method ReadByAnyCalls(reader: PayloadReader, calls: seq<PayloadCall>) returns (got: seq<Byte>, use: PayloadUse)
    requires reader.Valid() && reader.delivered == []
    modifies reader, reader.stream, reader.stream.inner, reader.stream.block
    ensures reader.Valid() && reader.size == old(reader.size) && reader.start == old(reader.start)
    ensures |got| <= reader.size && reader.start + |got| <= |reader.stream.inner.input|
    ensures got == reader.stream.inner.input[reader.start..reader.start + |got|]
    ensures use == ReadToEnd ==> |got| == reader.size
    ensures use == SkippedRest ==>
              reader.start + reader.size <= |reader.stream.inner.input|
              && reader.delivered == reader.stream.inner.input[reader.start..reader.start + reader.size]
    ensures use == ReadToEnd || use == SkippedRest ==> reader.remaining == 0
    ensures !use.BrokenOff? ==> reader.EndOffset() == old(reader.EndOffset())
    ensures use.BrokenOff? ==> reader.stream.state.Failed?
  {
    hide PayloadFault, TarStream.Valid, TarStream.Unread, TarStream.Remaining, TarStream.Offset, Padded;
    got, use := [], LeftOff;
    for i := 0 to |calls|
      invariant reader.Valid() && got == reader.delivered && use == LeftOff
      invariant reader.size == old(reader.size) && reader.start == old(reader.start)
      invariant reader.EndOffset() == old(reader.EndOffset())
    {
      var step;
      match calls[i] {
        case BlockCall => step := reader.NextPayloadBlock();
        case ChunkCall(target) => step := reader.NextPayloadChunk(target);
        case SkipCall =>
          step := reader.DrainPayload();
          use := match step
            case PayloadError(e) => BrokenOff(e)
            case PayloadExhausted => SkippedRest
            case _ => SkipDropped;
          return;
      }
      match step
      case PayloadBlockRead(_, block, len) => got := got + block[..len];
      case PayloadChunkRead(bytes) => got := got + bytes;
      case PayloadExhausted => return got, ReadToEnd;
      case PayloadStalled =>
      case PayloadError(e) => return got, BrokenOff(e);
    }
  }

  // ------------------------------------------------------ the member reader

  datatype MemberPoll =
    | MemberPending
    | MemberReady(header: LogicalHeader, extensions: MemberExtensions)
    | MembersEnded
    | MemberFailed(error: FrameError)

  /** Assembles members over the frame stream, with its own copy of the global records. */
  class TarReader {
    const globals: GlobalPaxRecords
    const payload: PayloadReader
    var pending: PendingExtensions
    var extension: Option<ExtensionPayload>

    ghost function Abs(): Assembly
      reads this, globals
    {
      Assembly(pending, extension, globals.history)
    }

    /** The two global record sets are distinct objects, and the two state machines are in step. */
    ghost predicate Valid()
      reads this, globals, payload, payload.stream, payload.stream.inner, payload.stream.block, payload.stream.globals
    {
      && payload.Valid() && globals.Valid() && globals != payload.stream.globals
      && (!payload.stream.state.Failed? ==>
            && InStep(payload.stream.Abs(), Abs())
            && (payload.stream.state.ReadingMember? || payload.stream.chunkState.Some? ==> payload.remaining > 0))
    }

    /** What is still to come once the current payload is behind: the scan from there on. */
    ghost function Ahead(): MemberScan
      requires payload.EndOffset() < U64_LIMIT && payload.EndOffset() <= |payload.stream.inner.input|
      reads this, globals, payload, payload.stream, payload.stream.globals
    {
      var m := payload.stream.Abs();
      NextMember(if payload.remaining > 0 then m.(state := AwaitingHeader) else m, Abs(), payload.EndOffset(),
                 payload.stream.inner.input[payload.EndOffset()..])
    }

    constructor (reader: ByteSource, policy: StreamPolicy)
      requires reader.Valid() && reader.unread == reader.input
      ensures Valid() && fresh(payload) && fresh(payload.stream) && payload.stream.inner == reader
      ensures fresh(globals) && fresh(payload.stream.block) && fresh(payload.stream.globals)
      ensures payload.remaining == 0 && payload.EndOffset() == 0 && pending == NO_EXTENSIONS && extension.None?
      ensures payload.stream.Abs() == Start(policy) && Abs() == Assembly(NO_EXTENSIONS, None, [])
    {
      hide TarStream.Valid, TarStream.Readable, TarStream.Unread, TarStream.Remaining, TarStream.ChunkValid;
      var stream := new TarStream(reader, policy);
      payload := new PayloadReader(stream);
      globals := new GlobalPaxRecords();
      pending := NO_EXTENSIONS;
      extension := None;
    }

    /** The current payload is all in the input, at representable offsets. */
    ghost predicate PayloadPresent()
      reads this, payload, payload.stream
    {
      payload.EndOffset() < U64_LIMIT && payload.EndOffset() <= |payload.stream.inner.input|
    }

    /** Once a payload is behind, the machine is at a member boundary; before that, nothing else has moved. */
    method DrainCurrent() returns (r: PayloadStep)
      requires Valid() && !payload.stream.state.Failed?
      modifies payload, payload.stream, payload.stream.inner, payload.stream.block
      ensures Valid() && (r.PayloadStalled? || r.PayloadExhausted? || r.PayloadError?)
      ensures r.PayloadStalled? || r.PayloadExhausted? ==>
                && !payload.stream.state.Failed?
                && PayloadPresent() == old(PayloadPresent()) && (PayloadPresent() ==> Ahead() == old(Ahead()))
      ensures r.PayloadExhausted? ==> payload.remaining == 0 && payload.stream.chunkState.None? && PayloadPresent()
      ensures r.PayloadError? ==>
                && payload.stream.state.Failed?
                && PayloadFault(r.error, old(payload.remaining), old(payload.stream.Offset()), |payload.stream.inner.input|, AwaitingHeader)
    {
      hide NextMember, Truncated;
      ghost var m := payload.stream.Abs();
      r := payload.DrainPayload();
      if r.PayloadExhausted? {
        payload.stream.NothingPending();
      }
    }

    /**
     * The next run of the current member's payload; what lies behind the payload stays the same. On a stream that
     * has failed, a payload with anything left answers with an error.
     */
    method NextChunk(target: U64) returns (r: PayloadStep)
      requires Valid()
      modifies payload, payload.stream, payload.stream.inner, payload.stream.block
      ensures Valid() && payload.start == old(payload.start) && payload.size == old(payload.size)
      ensures r.PayloadStalled? || r.PayloadExhausted? || r.PayloadChunkRead? || r.PayloadError?
      ensures r.PayloadExhausted? <==> old(payload.remaining) == 0
      ensures r.PayloadExhausted? ==> payload.remaining == 0 && payload.stream.state == old(payload.stream.state)
      ensures old(payload.stream.state.Failed?) && old(payload.remaining) > 0 ==> r.PayloadError?
      ensures !r.PayloadError? && !old(payload.stream.state.Failed?) ==>
                && !payload.stream.state.Failed?
                && PayloadPresent() == old(PayloadPresent()) && (PayloadPresent() ==> Ahead() == old(Ahead()))
      ensures payload.delivered == old(payload.delivered) + if r.PayloadChunkRead? then r.bytes else []
      ensures r.PayloadChunkRead? ==>
                && r.bytes != [] && |r.bytes| == old(payload.stream.DueBytes(target))
                && (|r.bytes| >= Min(old(payload.remaining), target) <==> old(payload.stream.ReachesTarget(target)))
      ensures r.PayloadError? ==>
                && payload.stream.state.Failed?
                && PayloadFault(r.error, old(payload.remaining), old(payload.stream.Offset()), |payload.stream.inner.input|,
                                old(payload.stream.state))
    {
      hide NextMember, PayloadFault, InStep, Padded, PayloadReader.Valid, PayloadReader.EndOffset;
      hide TarStream.Valid, TarStream.ChunkValid, TarStream.DueBytes, TarStream.ReachesTarget, TarStream.Remaining, TarStream.Offset;
      ghost var m := payload.stream.Abs();
      ghost var reading := payload.remaining > 0 && !m.state.Failed?;
      if reading { PayloadState(); }
      r := payload.NextPayloadChunk(target);
      assert payload.stream.Abs() == m.(state := payload.stream.state);
      if reading && !payload.stream.state.Failed? {
        PayloadState();
        MemberInStep(m, Abs(), payload.stream.state);
      }
    }

    /** From a payload on, the stream reads the member or stands at a boundary, where nothing is pending at the end. */
    lemma PayloadState()
      requires payload.Valid() && (payload.remaining > 0 || payload.stream.Settled()) && !payload.stream.state.Failed?
      ensures payload.stream.state.ReadingMember? || payload.stream.state == AwaitingHeader
      ensures payload.remaining == 0 ==> payload.stream.chunkState.None? && payload.stream.state == AwaitingHeader
    {
      payload.stream.NothingPendingWhenRead();
    }

    method ClearExtensionState()
      modifies this`pending, this`extension
      ensures pending == NO_EXTENSIONS && extension.None?
    {
      pending := NO_EXTENSIONS;
      extension := None;
    }

    /**
     * The next member. Whatever the fragmentation, stalls and abandoned calls so far, the result is the one
     * the whole input determines; a payload still unread is drained first.
     */
    method NextFrame() returns (r: MemberPoll)
      requires Valid()
      modifies this`pending, this`extension, globals, payload, payload.stream, payload.stream.inner, payload.stream.block,
               payload.stream.globals
      ensures Valid()
      ensures old(payload.stream.state.Failed?) ==> r.MembersEnded?
      ensures !old(payload.stream.state.Failed?) ==>
                match r
                case MemberPending =>
                  && !payload.stream.state.Failed?
                  && PayloadPresent() == old(PayloadPresent()) && (PayloadPresent() ==> Ahead() == old(Ahead()))
                case MemberReady(header, extensions) =>
                  && old(PayloadPresent())
                  && payload.stream.state == MemberPayloadState(header.effectiveSize)
                  && payload.delivered == [] && payload.size == payload.remaining == header.effectiveSize
                  && payload.start < U64_LIMIT && payload.start <= |payload.stream.inner.input|
                  && payload.EndOffset() == payload.start + Padded(payload.size)
                  && old(Ahead()) == MemberFound(payload.stream.Abs(), Abs(), header, extensions, payload.start,
                                                 payload.stream.inner.input[payload.start..])
                case MembersEnded => old(PayloadPresent()) && old(Ahead()) == MemberEnd
                case MemberFailed(e) =>
                  && payload.stream.state.Failed?
                  && (|| e.fault == IoFailure
                      || (old(PayloadPresent()) && old(Ahead()) == MemberFail(e))
                      || PayloadFault(e, old(payload.remaining), old(payload.stream.Offset()), |payload.stream.inner.input|, AwaitingHeader))
    {
      hide NextMember, InStep, PayloadFault, TarStream.Valid, PayloadReader.Valid;
      if payload.stream.state.Failed? {
        ClearExtensionState();
        return MembersEnded;
      }
      var drained := DrainCurrent();
      match drained {
        case PayloadError(e) =>
          ClearExtensionState();
          return MemberFailed(e);
        case PayloadStalled => return MemberPending;
        case _ =>
      }
      r := AssembleMember();
    }

    /** The reader is at a frame, with no payload pending. */
    ghost predicate AtFrame()
      reads this, globals, payload, payload.stream, payload.stream.inner, payload.stream.block, payload.stream.globals
    {
      && Valid() && !payload.stream.state.Failed? && payload.remaining == 0 && payload.stream.chunkState.None?
    }

    /** `r` is what the input still ahead determined. */
    ghost predicate Answers(ahead: MemberScan, r: MemberPoll)
      reads this, globals, payload, payload.stream, payload.stream.inner, payload.stream.block, payload.stream.globals
    {
      match r
      case MemberPending => AtFrame() && PayloadPresent() && Ahead() == ahead
      case MemberReady(header, extensions) =>
        && payload.Progress() && payload.delivered == [] && payload.size == payload.remaining == header.effectiveSize
        && payload.start < U64_LIMIT && payload.EndOffset() == payload.start + Padded(payload.size)
        && payload.stream.state == MemberPayloadState(header.effectiveSize)
        && ahead == MemberFound(payload.stream.Abs(), Abs(), header, extensions, payload.start,
                                payload.stream.inner.input[payload.start..])
      case MembersEnded => ahead == MemberEnd
      case MemberFailed(e) => payload.stream.state.Failed? && (e.fault == IoFailure || ahead == MemberFail(e))
    }

    /** Takes frames in until a member header comes. */
    method AssembleMember() returns (r: MemberPoll)
      requires AtFrame()
      modifies this`pending, this`extension, globals, payload, payload.stream, payload.stream.inner, payload.stream.block,
               payload.stream.globals
      ensures Valid() && Answers(old(Ahead()), r)
    {
      hide NextMember;
      ghost var ahead := Ahead();
      while true
        invariant AtFrame() && Ahead() == ahead
        decreases |payload.stream.Unread()|
      {
        var again;
        r, again := AbsorbOneFrame();
        if !again {
          return;
        }
      }
    }

    /** One frame: an extension is absorbed (`again`), a header starts its member. */
    method AbsorbOneFrame() returns (r: MemberPoll, again: bool)
      requires AtFrame()
      modifies this`pending, this`extension, globals, payload, payload.stream, payload.stream.inner, payload.stream.block,
               payload.stream.globals
      ensures Valid()
      ensures again ==> AtFrame() && |payload.stream.Unread()| < old(|payload.stream.Unread()|) && Ahead() == old(Ahead())
      ensures !again ==> Answers(old(Ahead()), r)
    {
      hide NextMember, Framing.NextFrame, Absorb, InStep, LogicalHeaderOf, TarStream.ChunkValid, TarStream.Valid, Ahead;
      AheadFromHere();
      ghost var a, ahead := Abs(), Ahead();
      var polled := PollFrame();
      match polled
      case FramePending =>
        AheadFromHere();
        return MemberPending, false;
      case FrameFailed(e) =>
        ClearExtensionState();
        return MemberFailed(e), false;
      case FrameReady(None) =>
        AheadFromHere();
        ClearedInStep(payload.stream.Abs(), a);
        ClearExtensionState();
        return MembersEnded, false;
      case FrameReady(Some(frame)) => r, again := TakeFrame(frame, ahead);
    }

    /** The stream gave a frame the assembly accepts, leading to the member that was ahead. */
    ghost predicate FrameFits(ahead: MemberScan, frame: Frame)
      reads this, globals, payload, payload.stream, payload.stream.inner, payload.stream.block, payload.stream.globals
    {
      && payload.stream.Valid() && payload.stream.chunkState.None? && !payload.stream.state.Failed?
      && var m, a, rest := payload.stream.Abs(), Abs(), payload.stream.Unread();
         if frame.HeaderFrame? then
           && InStep(m, Cleared(a)) && m.state == MemberPayloadState(frame.header.effectiveSize)
           && ahead == MemberFound(m, Cleared(a), LogicalHeaderOf(frame.header), ExtensionsFor(a, frame.header.format),
                                   payload.stream.position, rest)
         else
           && Absorb(a, frame).Ok? && InStep(m, Absorb(a, frame).value) && !m.state.ReadingMember?
           && ahead == NextMember(m, Absorb(a, frame).value, payload.stream.position, rest)
    }

    /** With no payload pending, what is ahead starts at the stream's own position. */
    lemma AheadFromHere()
      requires AtFrame()
      ensures PayloadPresent() && !payload.stream.state.ReadingMember? && InStep(payload.stream.Abs(), Abs())
      ensures Ahead() == NextMember(payload.stream.Abs(), Abs(), payload.stream.position, payload.stream.Unread())
    {
      hide NextMember, InStep, TarStream.ChunkValid;
      assert payload.EndOffset() == payload.stream.position;
    }

    /** The stream stopped at a frame boundary, in step. */
    lemma BackAtFrame()
      requires payload.stream.Valid() && payload.stream.chunkState.None? && payload.Progress() && payload.remaining == 0
      requires globals.Valid() && globals != payload.stream.globals
      requires InStep(payload.stream.Abs(), Abs()) && !payload.stream.state.Failed? && !payload.stream.state.ReadingMember?
      ensures AtFrame()
    {
      hide InStep, TarStream.Valid;
    }

    /** One frame from the stream; the assembly has not moved yet. */
    method PollFrame() returns (polled: FramePoll)
      requires AtFrame()
      modifies payload.stream, payload.stream.inner, payload.stream.block, payload.stream.globals
      ensures payload.stream.Valid()
      ensures polled.FramePending? ==> AtFrame() && Ahead() == old(Ahead())
      ensures polled.FrameFailed? ==>
                payload.stream.state.Failed? && (polled.error.fault == IoFailure || old(Ahead()) == MemberFail(polled.error))
      ensures polled.FrameReady? && polled.frame.None? ==> old(Ahead()) == MemberEnd && AtFrame() && payload.stream.state.Complete?
      ensures polled.FrameReady? && polled.frame.Some? ==>
                FrameFits(old(Ahead()), polled.frame.value) && |payload.stream.Unread()| < old(|payload.stream.Unread()|)
    {
      hide NextMember, Framing.NextFrame, Absorb, InStep, LogicalHeaderOf, TarStream.ChunkValid, Ahead, EndMarkerOnly;
      AheadFromHere();
      ghost var m, a, at, bytes := payload.stream.Abs(), Abs(), payload.stream.position, payload.stream.Unread();
      NextMemberUnfolds(m, a, at, bytes);
      polled := payload.stream.NextFrame();
      ghost var m' := payload.stream.Abs();
      match polled
      case FramePending =>
        StillInStep(m, m', a);
        SameScanSameMember(m, at, bytes, m', payload.stream.position, payload.stream.Unread(), a);
        BackAtFrame();
        AheadFromHere();
      case FrameFailed(_) =>
      case FrameReady(None) =>
        StillInStep(m, m', a);
        EndedIsComplete(m, at, bytes);
        BackAtFrame();
      case FrameReady(Some(frame)) =>
        FramesStayTogether(m, a, at, bytes);
        FrameConsumes(m, at, bytes);
    }

    /** Collects one block of extension payload. */
    method ProcessExtensionData(at: U64, block: Block, len: nat, owner: DataOwner, completed: Option<seq<PaxRecord>>)
      returns (error: Option<FrameError>)
      requires globals.Valid()
      modifies this`pending, this`extension, globals
      ensures globals.Valid()
      ensures match AbsorbData(old(Abs()), at, block, len, owner, completed)
              case Err(e) => error == Some(e)
              case Ok(a) => error.None? && Abs() == a
    {
      var taken := extension;
      extension := None;
      match taken
      case None => return Some(FrameError(at, UnexpectedOrder(ExtensionOrMemberHeader, UnattachedPayload)));
      case Some(PaxPayload(position, kind)) =>
        if owner != PaxData(kind) {
          return Some(FrameError(at, UnexpectedOrder(PaxExtensionPayload, DifferentPayload)));
        }
        if completed.Some? {
          var done := PaxExtension(position, kind, completed.value);
          if kind == Global {
            globals.Apply(completed.value);
            pending := pending.(globalPax := pending.globalPax + [done]);
          } else {
            pending := pending.(localPax := Some(done));
          }
        } else {
          extension := taken;
        }
        return None;
      case Some(GnuPayload(position, kind, remaining, payload)) =>
        if owner != GnuData(kind) {
          return Some(FrameError(at, UnexpectedOrder(GnuMetadataPayload, DifferentPayload)));
        }
        if len > remaining || len > BLOCK_SIZE {
          return Some(FrameError(at, UnexpectedOrder(GnuMetadataPayload, OversizedPayload)));
        }
        var collected := payload + block[..len];
        if remaining == len {
          pending := SetGnu(pending, kind, GnuMetadata(position, collected));
        } else {
          extension := Some(GnuPayload(position, kind, remaining - len, collected));
        }
        return None;
    }

    method AbsorbFrame(frame: Frame) returns (error: Option<FrameError>)
      requires globals.Valid() && !frame.HeaderFrame?
      modifies this`pending, this`extension, globals
      ensures globals.Valid()
      ensures match Absorb(old(Abs()), frame)
              case Err(e) => error == Some(e)
              case Ok(a) => error.None? && Abs() == a
    {
      hide AbsorbData;
      match frame
      case PaxFrame(position, _, kind, _) =>
        extension := Some(PaxPayload(position, kind));
        return None;
      case GnuFrame(position, _, kind, size) =>
        if size == 0 {
          pending := SetGnu(pending, kind, GnuMetadata(position, []));
        } else {
          extension := Some(GnuPayload(position, kind, size, []));
        }
        return None;
      case DataFrame(at, block, len, owner, completed) =>
        error := ProcessExtensionData(at, block, len, owner, completed);
    }

    /** Deals with a frame just read, which the lock step says is acceptable. */
    method TakeFrame(frame: Frame, ghost ahead: MemberScan) returns (r: MemberPoll, again: bool)
      requires payload.stream.Valid() && globals.Valid() && globals != payload.stream.globals
      requires payload.remaining == 0 && payload.Progress() && FrameFits(ahead, frame)
      modifies this`pending, this`extension, globals, payload
      ensures Valid()
      ensures again ==> AtFrame() && Ahead() == ahead
      ensures !again ==> Answers(ahead, r)
    {
      hide NextMember, Absorb, InStep, HeaderPath, TarStream.ChunkValid, TarStream.Valid, Ahead;
      if frame.HeaderFrame? {
        r := TakeHeader(frame.header);
        again := false;
      } else {
        var _ := AbsorbFrame(frame);
        BackAtFrame();
        AheadFromHere();
        return MemberPending, true;
      }
    }

    /** A member header starts its payload and takes the pending extensions with it. */
    method TakeHeader(header: MemberHeader) returns (r: MemberPoll)
      requires payload.stream.Valid() && payload.stream.chunkState.None? && globals.Valid() && globals != payload.stream.globals
      requires !payload.stream.state.Failed? && InStep(payload.stream.Abs(), Cleared(Abs()))
      requires payload.stream.state == MemberPayloadState(header.effectiveSize)
      modifies this`pending, payload
      ensures Valid() && Abs() == old(Cleared(Abs()))
      ensures r == MemberReady(LogicalHeaderOf(header), old(ExtensionsFor(Abs(), header.format)))
      ensures payload.Progress() && payload.delivered == [] && payload.size == payload.remaining == header.effectiveSize
      ensures payload.start == payload.stream.position <= |payload.stream.inner.input|
      ensures payload.EndOffset() == payload.start + Padded(payload.size)
      ensures payload.stream.Unread() == payload.stream.inner.input[payload.start..]
    {
      hide InStep, LogicalHeaderOf, TarStream.ChunkValid;
      var taken := pending;
      pending := NO_EXTENSIONS;
      var extensions := match header.format
        case PaxFormat => PaxState(globals.records, taken.globalPax, taken.localPax)
        case GnuFormat => GnuState(taken.longName, taken.longLink);
      payload.StartPayload(header.effectiveSize);
      return MemberReady(LogicalHeaderOf(header), extensions);
    }
  }

  /** Within a payload nothing is pending, whatever is left of it. */
  lemma MemberInStep(m: Machine, a: Assembly, state: State)
    requires InStep(m, a) && (m.state.ReadingMember? || m.state == AwaitingHeader)
    requires state.ReadingMember? || state == AwaitingHeader
    ensures InStep(m.(state := state), a)
  {
  }

  /** The member to come depends on the machine and the input only through the next frame. */
  lemma SameScanSameMember(
      m: Machine, position: U64, bytes: seq<Byte>, m': Machine, position': U64, bytes': seq<Byte>, a: Assembly)
    requires Framing.NextFrame(m, position, bytes) == Framing.NextFrame(m', position', bytes')
    ensures NextMember(m, a, position, bytes) == NextMember(m', a, position', bytes')
  {
    hide Framing.NextFrame, Absorb;
  }

  lemma ClearedInStep(m: Machine, a: Assembly)
    requires InStep(m, a) && EndRank(m.state) <= 1
    ensures InStep(m, a.(pending := NO_EXTENSIONS, extension := None))
  {
  }

  lemma FrameConsumes(m: Machine, position: U64, bytes: seq<Byte>)
    requires Framing.NextFrame(m, position, bytes).ScanFrame?
    ensures |Framing.NextFrame(m, position, bytes).rest| < |bytes|
  {
    FramesAreLossless(m, position, bytes);
  }

  lemma StillInStep(m: Machine, m': Machine, a: Assembly)
    requires InStep(m, a) && EndMarkerOnly(m, m') && !m.state.Failed?
    ensures InStep(m', a) && !m'.state.Failed?
    ensures !m'.state.ReadingMember? || m' == m
  {
  }

  lemma {:induction false} EndedIsComplete(m: Machine, position: U64, bytes: seq<Byte>)
    requires !m.state.Failed? && Framing.NextFrame(m, position, bytes).ScanEnd?
    ensures Framing.NextFrame(m, position, bytes).machine.state.Complete?
    decreases EndRank(m.state)
  {
    hide Step;
    if !m.state.Complete? {
      StepKeepsBlock(m, position, bytes[..BLOCK_SIZE]);
      EndedIsComplete(Step(m, position, bytes[..BLOCK_SIZE]).value.0, position + BLOCK_SIZE, bytes[BLOCK_SIZE..]);
    }
  }

  lemma NextMemberUnfolds(m: Machine, a: Assembly, position: U64, bytes: seq<Byte>)
    ensures var scan := Framing.NextFrame(m, position, bytes); var member := NextMember(m, a, position, bytes);
            && (scan.ScanFail? ==> member == MemberFail(scan.error))
            && (scan.ScanEnd? ==> member == MemberEnd)
            && (scan.ScanFrame? && scan.frame.HeaderFrame? ==>
                  member == MemberFound(scan.machine, Cleared(a), LogicalHeaderOf(scan.frame.header),
                                        ExtensionsFor(a, scan.frame.header.format), scan.next, scan.rest))
            && (scan.ScanFrame? && !scan.frame.HeaderFrame? && Absorb(a, scan.frame).Ok? ==>
                  member == NextMember(scan.machine, Absorb(a, scan.frame).value, scan.next, scan.rest))
  {
    hide Framing.NextFrame, Absorb;
  }
}
