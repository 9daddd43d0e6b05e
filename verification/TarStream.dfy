/** The physical frame reader: partial blocks, resumable member chunks, and the block machine's fields. */
module TarStream {
  import opened Octets
  import opened Numbers
  import opened Header
  import opened PaxRecords
  import opened Pax
  import opened Framing
  import opened Source

  datatype FramePoll = FramePending | FrameReady(frame: Option<Frame>) | FrameFailed(error: FrameError)

  datatype BlockPoll =
    | BlockPending
    | EndOfInput
    | BlockReady(position: U64, block: Block)
    | BlockFailed(error: FrameError)

  datatype PayloadPoll =
    | PayloadPending
    | PayloadBlock(position: U64, block: Block, len: nat)
    | PayloadChunk(bytes: seq<Byte>)
    | PayloadFailed(error: FrameError)

  /** A member chunk that survives cancellation: still being filled, or filled and partly handed out. */
  datatype ChunkState = Reading(memberRemaining: U64, filled: nat) | Ready(delivered: nat)

  class TarStream {
    var position: U64
    const inner: ByteSource
    const block: array<Byte>
    var blockLen: nat
    var format: Option<ArchiveFormat>
    /** Empty until the first global header: the state the source keeps as an absent record set. */
    const globals: GlobalPaxRecords
    const policy: StreamPolicy
    var globalPaxExtensionsSize: U64
    var state: State
    var chunkBuffer: seq<Byte>
    var chunkStart: U64
    var chunkPhysical: nat
    var chunkMeaningful: nat
    var chunkState: Option<ChunkState>

    /** The fields as the block machine sees them. */
    ghost function Abs(): Machine
      reads this, globals
    {
      Machine(state, format, globals.history, globalPaxExtensionsSize, policy)
    }

    ghost predicate Readable()
      reads this, inner
    {
      inner.Valid() && block.Length == BLOCK_SIZE && blockLen <= BLOCK_SIZE
    }

    /** A pending chunk covers whole blocks of the current member's payload. */
    ghost predicate ChunkValid()
      reads this
    {
      && 0 < chunkMeaningful <= chunkPhysical == |chunkBuffer| == Padded(chunkMeaningful)
      && match chunkState
         case None => true
         case Some(Reading(memberRemaining, filled)) =>
           && state == ReadingMember(memberRemaining) && filled <= chunkPhysical
           && chunkMeaningful == Min(memberRemaining, chunkPhysical) && chunkStart == position
         case Some(Ready(delivered)) =>
           && delivered < chunkPhysical && delivered % BLOCK_SIZE == 0
           && chunkStart + chunkPhysical == position
           && (state == AwaitingHeader || state.ReadingMember?)
           && (state.ReadingMember? ==> 0 < state.remaining && chunkMeaningful == chunkPhysical)
    }

    /** The bytes not yet handed out as blocks, wherever they are held. */
    ghost function Unread(): seq<Byte>
      requires Readable() && (chunkState.Some? ==> ChunkValid())
      reads this, inner, block
    {
      match chunkState
      case None => block[..blockLen] + inner.unread
      case Some(Reading(_, filled)) => chunkBuffer[..filled] + inner.unread
      case Some(Ready(delivered)) => chunkBuffer[delivered..] + inner.unread
    }

    /** The current member's payload bytes not yet handed out. */
    ghost function Remaining(): nat
      requires chunkState.Some? ==> ChunkValid()
      reads this
    {
      var inState := if state.ReadingMember? then state.remaining else 0;
      match chunkState
      case Some(Ready(delivered)) => (if delivered <= chunkMeaningful then chunkMeaningful - delivered else 0) + inState
      case _ => inState
    }

    /** The input offset of the first byte not yet handed out. */
    ghost function Offset(): nat
      reads this
    {
      match chunkState
      case Some(Ready(delivered)) => chunkStart + delivered
      case _ => position
    }

    /** A partial block and a pending chunk never coexist, and offsets count the input. */
    ghost predicate Valid()
      reads this, inner, block, globals
    {
      && Readable() && globals.Valid()
      && (blockLen == BLOCK_SIZE ==> state.Failed?)
      && (chunkState.Some? ==> ChunkValid() && blockLen == 0)
      && (state.ReadingMember? ==> 0 < state.remaining)
      && (!state.Failed? ==> Offset() <= |inner.input| && Unread() == inner.input[Offset()..])
    }

    constructor (reader: ByteSource, policy: StreamPolicy)
      requires reader.Valid() && reader.unread == reader.input
      ensures Valid() && chunkState.None? && inner == reader && this.policy == policy
      ensures Abs() == Start(policy) && position == 0 && Unread() == reader.input
      ensures fresh(block) && fresh(globals)
    {
      position, blockLen, format := 0, 0, None;
      inner, this.policy, globalPaxExtensionsSize, state := reader, policy, 0, AwaitingHeader;
      chunkBuffer, chunkStart, chunkPhysical, chunkMeaningful, chunkState := [], 0, 0, 0, None;
      block := new Byte[BLOCK_SIZE](_ => 0);
      globals := new GlobalPaxRecords();
    }

    // -------------------------------------------------------- reading blocks

    /** Completes one block, keeping a partial block across stalls. */
    method PollReadBlock() returns (r: BlockPoll)
      requires Readable() && chunkState.None? && blockLen < BLOCK_SIZE
      modifies this`position, this`blockLen, inner, block
      ensures Readable()
      ensures r.BlockPending? || r.EndOfInput? ==>
                blockLen < BLOCK_SIZE && Unread() == old(Unread()) && position == old(position)
      ensures r.EndOfInput? ==> Unread() == []
      ensures r.BlockReady? ==>
                && old(Unread()) == r.block + Unread() && Unread() == inner.unread && blockLen == 0
                && r.position == old(position) && position == r.position + BLOCK_SIZE
      ensures r.BlockFailed? ==>
                || r.error.fault == IoFailure
                || (0 < |old(Unread())| < BLOCK_SIZE && r.error == FrameError(old(position), IncompleteBlock(|old(Unread())|)))
                || (|old(Unread())| >= BLOCK_SIZE && old(position) + BLOCK_SIZE >= U64_LIMIT
                    && r.error == FrameError(old(position), Overflow))
    {
      ghost var start := Unread();
      while blockLen < BLOCK_SIZE
        invariant Readable() && position == old(position) && Unread() == start
      {
        var read := PollIntoBlock();
        match read
        case ReadPending => return BlockPending;
        case ReadFailed =>
          return BlockFailed(FrameError(if position + blockLen < U64_LIMIT then position + blockLen else position, IoFailure));
        case ReadBytes(bytes) =>
          if bytes == [] {
            if blockLen == 0 { return EndOfInput; }
            return BlockFailed(FrameError(position, IncompleteBlock(blockLen)));
          }
      }
      r := FinishBlock();
    }

    /** One read behind the bytes already in the block. */
    method PollIntoBlock() returns (read: ReadPoll)
      requires Readable() && chunkState.None? && blockLen < BLOCK_SIZE
      modifies this`blockLen, inner, block
      ensures Readable() && Unread() == old(Unread())
      ensures blockLen == old(blockLen) + if read.ReadBytes? then |read.bytes| else 0
      ensures read.ReadBytes? && read.bytes == [] ==> |Unread()| == blockLen
    {
      ghost var before, unread := block[..blockLen], inner.unread;
      read := inner.PollRead(BLOCK_SIZE - blockLen);
      if read.ReadBytes? {
        AppendToBlock(read.bytes);
        assert before + unread == before + read.bytes + inner.unread;
      }
    }

    /** A full block is handed on and the buffer is free again. */
    method FinishBlock() returns (r: BlockPoll)
      requires Readable() && chunkState.None? && blockLen == BLOCK_SIZE
      modifies this`position, this`blockLen
      ensures Readable() && (r.BlockReady? || r.BlockFailed?)
      ensures r.BlockReady? ==>
                && old(Unread()) == r.block + Unread() && Unread() == inner.unread && blockLen == 0
                && r.position == old(position) && position == r.position + BLOCK_SIZE
      ensures r.BlockFailed? ==>
                |old(Unread())| >= BLOCK_SIZE && old(position) + BLOCK_SIZE >= U64_LIMIT && r.error == FrameError(old(position), Overflow)
    {
      assert block[..blockLen] == block[..];
      if position + BLOCK_SIZE >= U64_LIMIT {
        return BlockFailed(FrameError(position, Overflow));
      }
      r := BlockReady(position, block[..]);
      position := position + BLOCK_SIZE;
      blockLen := 0;
      assert block[..0] == [];
    }

    method AppendToBlock(bytes: seq<Byte>)
      requires block.Length == BLOCK_SIZE && blockLen + |bytes| <= BLOCK_SIZE
      modifies this`blockLen, block
      ensures blockLen == old(blockLen) + |bytes|
      ensures block[..blockLen] == old(block[..blockLen]) + bytes
    {
      forall i | 0 <= i < |bytes| {
        block[blockLen + i] := bytes[i];
      }
      blockLen := blockLen + |bytes|;
    }

    // ----------------------------------------------------- processing blocks

    /** What a completed step leaves behind. */
    ghost predicate Stepped(expected: StepResult, r: Result<Frame, FrameError>)
      reads this, globals
    {
      match expected
      case Err(e) => r == Err(e) && state.Failed?
      case Ok((m, Some(frame))) => r == Ok(frame) && Abs() == m
      case Ok((_, None)) => false
    }

    /** Feeds one block to the machine. The state is failed until a branch says otherwise. */
    method ProcessBlock(at: U64, b: Block) returns (r: Result<Option<Frame>, FrameError>)
      requires globals.Valid()
      modifies this`state, this`format, this`globalPaxExtensionsSize, globals
      ensures globals.Valid()
      ensures match Step(old(Abs()), at, b)
              case Err(e) => r == Err(e) && state.Failed?
              case Ok((m, frame)) => r == Ok(frame) && Abs() == m
    {
      hide CheckedHeader, PaxHeaderStep, UstarHeaderStep, GnuHeaderStep, ParsePayload, GlobalCharset;
      var before := state;
      state := Failed;
      var frame: Result<Frame, FrameError>;
      match before {
      case AwaitingHeader =>
        if IsZeroBlock(b) {
          state := AwaitingSecondZero;
          return Ok(None);
        }
        frame := ProcessBoundaryHeader(at, b);
      case ReadingPax(kind, headerPosition, remaining, payload) =>
        frame := ProcessPaxData(at, b, kind, headerPosition, remaining, payload);
      case AwaitingUstarHeader(records) =>
        frame := ProcessLocalMember(at, b, records);
      case ReadingGnu(kind, remaining, pending) =>
        var len := Min(remaining, BLOCK_SIZE);
        state := if remaining == len then AwaitingGnuMember(pending) else ReadingGnu(kind, remaining - len, pending);
        return Ok(Some(DataFrame(at, b, len, GnuData(kind), None)));
      case AwaitingGnuMember(pending) =>
        frame := ProcessGnuMember(at, b, pending);
      case ReadingMember(remaining) =>
        var len := Min(remaining, BLOCK_SIZE);
        state := MemberPayloadState(remaining - len);
        return Ok(Some(DataFrame(at, b, len, MemberData, None)));
      case AwaitingSecondZero =>
        if !IsZeroBlock(b) {
          return Err(FrameError(at, InvalidEndMarker));
        }
        state := Complete;
        return Ok(None);
      case Complete =>
        state := Complete;
        return Ok(None);
      case Failed =>
        return Ok(None);
      }
      match frame
      case Err(e) => return Err(e);
      case Ok(f) => return Ok(Some(f));
    }

    /** Appends one block to an extension payload; the last block yields the parsed records. */
    method ProcessPaxData(at: U64, b: Block, kind: PaxKind, headerPosition: U64, remaining: U64, payload: seq<Byte>)
      returns (r: Result<Frame, FrameError>)
      requires globals.Valid() && state.Failed?
      modifies this`state, globals
      ensures globals.Valid()
      ensures Stepped(PaxDataStep(old(Abs()), at, b, kind, headerPosition, remaining, payload), r)
    {
      hide ParsePayload, GlobalCharset, LastRecord;
      var len := Min(remaining, BLOCK_SIZE);
      var collected := payload + b[..len];
      if remaining > len {
        state := ReadingPax(kind, headerPosition, remaining - len, collected);
        return Ok(DataFrame(at, b, len, PaxData(kind), None));
      }
      var parsed := ParsePaxRecords(collected, globals.ActiveCharset());
      match parsed
      case Err(e) => return Err(FrameError(headerPosition, InvalidPaxRecord(e)));
      case Ok(records) =>
        if kind == Local {
          state := AwaitingUstarHeader(records);
        } else {
          globals.Apply(records);
          state := AwaitingHeader;
        }
        return Ok(DataFrame(at, b, len, PaxData(kind), Some(records)));
    }

    /** Parses a header and locks the archive to the family of its first header. */
    method ParseFormatCheckedHeader(at: U64, b: Block) returns (r: Result<ParsedHeader, FrameError>)
      requires globals.Valid()
      modifies this`format
      ensures match CheckedHeader(old(Abs()), at, b)
              case Err(e) => r == Err(e) && Abs() == old(Abs())
              case Ok((m, parsed)) => r == Ok(parsed) && Abs() == m
    {
      hide ParseHeader;
      r := ParseHeader(at, b);
      if r.Ok? {
        if format.Some? && r.value.format != format.value {
          return Err(FrameError(at, FormatMismatch(format.value, r.value.format)));
        }
        if format.None? {
          format := Some(r.value.format);
        }
      }
    }

    method ProcessBoundaryHeader(at: U64, b: Block) returns (r: Result<Frame, FrameError>)
      requires globals.Valid() && state.Failed?
      modifies this`state, this`format, this`globalPaxExtensionsSize
      ensures Stepped(BoundaryStep(old(Abs()), at, b), r)
    {
      hide CheckedHeader, PaxHeaderStep, UstarHeaderStep, GnuHeaderStep;
      var header := ParseFormatCheckedHeader(at, b);
      match header
      case Err(e) => return Err(e);
      case Ok(parsed) =>
        match parsed.format
        case GnuFormat => r := ProcessGnuHeader(at, b, parsed, PendingGnu(false, false));
        case PaxFormat =>
          if parsed.typeflag == TYPE_PAX_LOCAL {
            r := ProcessPaxHeader(at, b, parsed.size, Local);
          } else if parsed.typeflag == TYPE_PAX_GLOBAL {
            r := ProcessPaxHeader(at, b, parsed.size, Global);
          } else {
            r := ProcessUstarHeader(at, b, parsed, None);
          }
    }

    method ProcessPaxHeader(at: U64, b: Block, size: U64, kind: PaxKind) returns (r: Result<Frame, FrameError>)
      requires globals.Valid() && state.Failed?
      modifies this`state, this`globalPaxExtensionsSize
      ensures Stepped(PaxHeaderStep(old(Abs()), at, b, size, kind), r)
    {
      if size > policy.maxPaxExtensionSize {
        return Err(FrameError(at, ExtensionTooLarge(PaxFormat, size, policy.maxPaxExtensionSize)));
      }
      if kind == Global {
        if globalPaxExtensionsSize + size >= U64_LIMIT {
          return Err(FrameError(at, Overflow));
        }
        var total := globalPaxExtensionsSize + size;
        if total > policy.maxGlobalPaxExtensionsSize {
          return Err(FrameError(at, GlobalPaxExtensionsTooLarge(total, policy.maxGlobalPaxExtensionsSize)));
        }
        globalPaxExtensionsSize := total;
      }
      if size == 0 {
        return Err(FrameError(at, InvalidPaxRecord(InvalidRecords(NoRecords))));
      }
      state := ReadingPax(kind, at, size, []);
      return Ok(PaxFrame(at, b, kind, size));
    }

    method ProcessUstarHeader(at: U64, b: Block, parsed: ParsedHeader, local: Option<seq<PaxRecord>>)
      returns (r: Result<Frame, FrameError>)
      requires globals.Valid() && state.Failed?
      modifies this`state
      ensures Stepped(UstarHeaderStep(old(Abs()), at, b, parsed, local), r)
    {
      hide UstarHeader, LastRecord;
      var sizeRecord := if local.Some? then LastRecord(local.value, SizeKey) else None;
      if sizeRecord.None? {
        sizeRecord := globals.Get(SizeKey);
      }
      var header := UstarHeader(at, b, parsed, sizeRecord, policy.allowAllNulNumericFields);
      match header
      case Err(e) => return Err(e);
      case Ok(h) =>
        state := MemberPayloadState(h.effectiveSize);
        return Ok(HeaderFrame(h));
    }

    method ProcessLocalMember(at: U64, b: Block, records: seq<PaxRecord>) returns (r: Result<Frame, FrameError>)
      requires globals.Valid() && state.Failed?
      modifies this`state, this`format
      ensures Stepped(LocalMemberStep(old(Abs()), at, b, records), r)
    {
      hide ParseHeader, UstarHeaderStep;
      if IsZeroBlock(b) {
        return Err(FrameError(at, UnexpectedOrder(UstarHeaderAfterLocalPax, EndMarker)));
      }
      var header := ParseFormatCheckedHeader(at, b);
      match header
      case Err(e) => return Err(e);
      case Ok(parsed) =>
        if IsPaxExtension(parsed.typeflag) {
          return Err(FrameError(at, UnexpectedOrder(UstarHeaderAfterLocalPax, AnotherPaxHeader)));
        }
        r := ProcessUstarHeader(at, b, parsed, Some(records));
    }

    method ProcessGnuMember(at: U64, b: Block, pending: PendingGnu) returns (r: Result<Frame, FrameError>)
      requires globals.Valid() && state.Failed?
      modifies this`state, this`format
      ensures Stepped(GnuMemberStep(old(Abs()), at, b, pending), r)
    {
      hide ParseHeader, GnuHeaderStep;
      if IsZeroBlock(b) {
        return Err(FrameError(at, UnexpectedOrder(GnuHeaderAfterExtension, EndMarker)));
      }
      var header := ParseFormatCheckedHeader(at, b);
      match header
      case Err(e) => return Err(e);
      case Ok(parsed) =>
        r := ProcessGnuHeader(at, b, parsed, pending);
    }

    method ProcessGnuHeader(at: U64, b: Block, parsed: ParsedHeader, pendingBefore: PendingGnu) returns (r: Result<Frame, FrameError>)
      requires globals.Valid() && state.Failed?
      modifies this`state
      ensures Stepped(GnuHeaderStep(old(Abs()), at, b, parsed, pendingBefore), r)
    {
      hide GnuHeader;
      var pending := pendingBefore;
      var extension := GnuExtensionOf(parsed.typeflag);
      if extension.Some? {
        var kind := extension.value;
        if Seen(pending, kind) {
          return Err(FrameError(at, UnexpectedOrder(GnuHeaderOrOtherExtension, DuplicateGnuExtension)));
        }
        if parsed.size > policy.maxGnuExtensionSize {
          return Err(FrameError(at, ExtensionTooLarge(GnuFormat, parsed.size, policy.maxGnuExtensionSize)));
        }
        pending := MarkSeen(pending, kind);
        state := if parsed.size == 0 then AwaitingGnuMember(pending) else ReadingGnu(kind, parsed.size, pending);
        return Ok(GnuFrame(at, b, kind, parsed.size));
      }
      var header := GnuHeader(at, b, parsed, pending.longLink, policy.allowAllNulNumericFields);
      match header
      case Err(e) => return Err(e);
      case Ok(h) =>
        state := MemberPayloadState(h.effectiveSize);
        return Ok(HeaderFrame(h));
    }

    /** The next frame of the input, whatever way its bytes arrive. */
    method NextFrame() returns (r: FramePoll)
      requires Valid() && chunkState.None?
      modifies this`position, this`blockLen, this`state, this`format, this`globalPaxExtensionsSize, inner, block, globals
      ensures Valid()
      ensures r.FramePending? ==> Framing.NextFrame(Abs(), position, Unread()) == old(Framing.NextFrame(Abs(), position, Unread()))
      ensures r.FramePending? || (r.FrameReady? && r.frame.None?) ==> EndMarkerOnly(old(Abs()), Abs())
      ensures r.FrameReady? ==>
                match r.frame
                case Some(frame) => old(Framing.NextFrame(Abs(), position, Unread())) == ScanFrame(Abs(), frame, position, Unread())
                case None => old(Framing.NextFrame(Abs(), position, Unread())) == ScanEnd(Abs())
      ensures r.FrameFailed? ==>
                && state.Failed?
                && (r.error.fault == IoFailure || old(Framing.NextFrame(Abs(), position, Unread())) == ScanFail(r.error))
    {
      hide Framing.NextFrame;
      hide ChunkValid;
      ghost var scan := Framing.NextFrame(Abs(), position, Unread());
      while !(state.Complete? || state.Failed?)
        invariant Valid() && chunkState.None?
        invariant Framing.NextFrame(Abs(), position, Unread()) == scan
        invariant EndMarkerOnly(old(Abs()), Abs())
        decreases EndRank(state)
      {
        var again;
        r, again := ReadOneBlock();
        if !again {
          return;
        }
      }
      FinishedScan(Abs(), position, Unread());
      return FrameReady(None);
    }

    /** One turn of the frame loop; `again` after an end-marker block. */
    method ReadOneBlock() returns (r: FramePoll, again: bool)
      requires Valid() && chunkState.None? && !Finished(Abs())
      modifies this`position, this`blockLen, this`state, this`format, this`globalPaxExtensionsSize, inner, block, globals
      ensures Valid()
      ensures again || r.FramePending? ==>
                && Framing.NextFrame(Abs(), position, Unread()) == old(Framing.NextFrame(Abs(), position, Unread()))
                && (again ==> EndRank(state) < old(EndRank(state)))
                && (r.FramePending? && !again ==> Abs() == old(Abs()))
                && (again ==> EndMarkerOnly(old(Abs()), Abs()))
      ensures !again && r.FrameReady? ==>
                && r.frame.Some?
                && old(Framing.NextFrame(Abs(), position, Unread())) == ScanFrame(Abs(), r.frame.value, position, Unread())
      ensures !again && r.FrameFailed? ==>
                && state.Failed?
                && (r.error.fault == IoFailure || old(Framing.NextFrame(Abs(), position, Unread())) == ScanFail(r.error))
    {
      hide Step, Framing.NextFrame, EndMarkerOnly, EndRank, StopFault, EofFault;
      hide ChunkValid;
      ghost var m, at, bytes := Abs(), position, Unread();
      var read := PollReadBlock();
      match read
      case BlockPending => return FramePending, false;
      case EndOfInput =>
        InputStops(m, at, bytes);
        var fault := EofFault(state);
        state := Failed;
        return FrameFailed(FrameError(position, fault)), false;
      case BlockFailed(e) =>
        if e.fault != IoFailure { InputStops(m, at, bytes); }
        state := Failed;
        return FrameFailed(e), false;
      case BlockReady(p, b) =>
        r, again := TakeBlock(p, b);
    }

    /** Feeds the block just read to the machine. */
    method TakeBlock(at: U64, b: Block) returns (r: FramePoll, again: bool)
      requires Valid() && chunkState.None? && blockLen == 0 && !Finished(Abs()) && position == at + BLOCK_SIZE
      modifies this`state, this`format, this`globalPaxExtensionsSize, globals
      ensures Valid() && Unread() == old(Unread()) && !r.FramePending?
      ensures var scan := Framing.NextFrame(old(Abs()), at, b + Unread());
              && (again ==>
                    && scan == Framing.NextFrame(Abs(), position, Unread())
                    && EndRank(state) < old(EndRank(state)) && EndMarkerOnly(old(Abs()), Abs()))
              && (!again && r.FrameReady? ==> r.frame.Some? && scan == ScanFrame(Abs(), r.frame.value, position, Unread()))
              && (!again && r.FrameFailed? ==> state.Failed? && scan == ScanFail(r.error))
    {
      hide Step, Framing.NextFrame, EndMarkerOnly, EndRank, ChunkValid;
      OneBlockScanned(Abs(), at, b, Unread());
      var result := ProcessBlock(at, b);
      match result
      case Err(e) => return FrameFailed(e), false;
      case Ok(frame) => return FrameReady(frame), frame.None?;
    }

    // ------------------------------------------------ reading member payload

    /** Fills a fresh chunk description for the current member; nothing is read yet. */
    method StartMemberChunk(target: U64) returns (error: Option<FrameError>)
      requires Valid() && chunkState.None?
      modifies this`chunkBuffer, this`chunkStart, this`chunkPhysical, this`chunkMeaningful, this`chunkState
      ensures Valid()
      ensures Unread() == old(Unread()) && Remaining() == old(Remaining()) && Offset() == old(Offset())
      ensures error.None? ==>
                && chunkState == Some(Reading(Remaining(), 0))
                && chunkMeaningful == ChunkSpan(Remaining(), target)
      ensures error.Some? ==> chunkState.None? && ReadFailure(error.value, Remaining(), Offset(), Unread(), blockLen)
      ensures state.Failed? ==> error.Some?
    {
      hide Padded, ReadFailure;
      if !state.ReadingMember? {
        NothingToRead(position, Remaining(), Offset(), Unread(), blockLen);
        return Some(FrameError(position, UnexpectedOrder(MemberPayload, NoMemberPayload)));
      }
      if blockLen != 0 {
        NotAligned(position, Remaining(), Offset(), Unread(), blockLen);
        return Some(FrameError(position, UnexpectedOrder(AlignedPayload, PartialBlock)));
      }
      var memberRemaining := state.remaining;
      var wanted := if target < BLOCK_SIZE then BLOCK_SIZE else target;
      var physical := Padded(Min(memberRemaining, wanted));
      ChunkFits(memberRemaining, wanted, Offset(), Unread());
      if physical >= U64_LIMIT {
        return Some(FrameError(position, Overflow));
      }
      assert block[..blockLen] == [];
      chunkBuffer := Zeros(physical);
      chunkStart := position;
      chunkPhysical := physical;
      chunkMeaningful := Min(memberRemaining, physical);
      chunkState := Some(Reading(memberRemaining, 0));
      assert chunkBuffer[..0] == [];
      return None;
    }

    /** The chunk is being filled. */
    ghost predicate Filling()
      reads this, inner, block, globals
    {
      Valid() && chunkState.Some? && chunkState.value.Reading?
    }

    /** Reads until the pending chunk is full. */
    method CompleteMemberChunk() returns (r: Option<FrameError>, pending: bool)
      requires Valid() && chunkState.Some?
      modifies this`position, this`state, this`chunkBuffer, this`chunkState, inner
      ensures !pending && r.Some? ==>
                && Readable() && globals.Valid() && blockLen == 0 && chunkState.None?
                && ReadFailure(r.value, old(Remaining()), old(Offset()), old(Unread()), 0)
      ensures pending || r.None? ==>
                && Valid() && chunkState.Some? && (!pending ==> chunkState.value.Ready?)
                && (!pending && old(chunkState.value.Reading?) ==> chunkState == Some(Ready(0)))
                && (old(chunkState.value.Ready?) ==> chunkState == old(chunkState))
                && Unread() == old(Unread()) && Remaining() == old(Remaining()) && Offset() == old(Offset())
    {
      ghost var unread, remaining, offset := Unread(), Remaining(), Offset();
      if chunkState.value.Ready? {
        return None, false;
      }
      hide ChunkValid, ReadFailure;
      while chunkState.value.filled < chunkPhysical
        invariant Filling() && chunkState.value.filled <= chunkPhysical
        invariant Unread() == unread && Remaining() == remaining && Offset() == offset
        decreases chunkPhysical - chunkState.value.filled
      {
        var read := PollChunk();
        match read {
          case ReadPending => return None, true;
          case ReadFailed =>
            var error := ChunkReadFailed();
            return Some(error), false;
          case ReadBytes(bytes) =>
            if bytes == [] {
              var error := ChunkInputEnded();
              return Some(error), false;
            }
        }
      }
      r := FinishChunk();
      return r, false;
    }

    /** One read into the unfilled part of the chunk buffer. */
    method PollChunk() returns (read: ReadPoll)
      requires Filling() && chunkState.value.filled < chunkPhysical
      modifies this`chunkBuffer, this`chunkState, inner
      ensures Filling() && chunkState.value.filled <= chunkPhysical
      ensures Unread() == old(Unread()) && Remaining() == old(Remaining()) && Offset() == old(Offset())
      ensures chunkState.value.filled == old(chunkState.value.filled) + if read.ReadBytes? then |read.bytes| else 0
      ensures read.ReadBytes? && read.bytes == [] ==> inner.unread == []
    {
      hide Padded, Min;
      var memberRemaining, filled := chunkState.value.memberRemaining, chunkState.value.filled;
      read := inner.PollRead(chunkPhysical - filled);
      if read.ReadBytes? {
        FilledFurther(chunkBuffer, filled, read.bytes, inner.unread);
        chunkBuffer := chunkBuffer[..filled] + read.bytes + chunkBuffer[filled + |read.bytes|..];
        chunkState := Some(Reading(memberRemaining, filled + |read.bytes|));
      }
    }

    method ChunkReadFailed() returns (error: FrameError)
      requires Filling() && chunkState.value.filled < chunkPhysical
      modifies this`position, this`chunkState
      ensures chunkState.None? && Readable()
      ensures ReadFailure(error, old(Remaining()), old(Offset()), old(Unread()), 0)
    {
      var filled := chunkState.value.filled;
      chunkState := None;
      if chunkStart + filled >= U64_LIMIT {
        return FrameError(chunkStart, Overflow);
      }
      position := chunkStart + (filled - filled % BLOCK_SIZE);
      return FrameError(chunkStart + filled, IoFailure);
    }

    method ChunkInputEnded() returns (error: FrameError)
      requires Filling() && chunkState.value.filled < chunkPhysical && inner.unread == []
      modifies this`position, this`chunkState
      ensures chunkState.None? && Readable()
      ensures ReadFailure(error, old(Remaining()), old(Offset()), old(Unread()), 0)
    {
      var memberRemaining, filled := chunkState.value.memberRemaining, chunkState.value.filled;
      assert Unread() == chunkBuffer[..filled];
      ShortChunk(memberRemaining, chunkPhysical, filled);
      hide Padded;
      chunkState := None;
      var partial := filled % BLOCK_SIZE;
      var completed := filled - partial;
      if chunkStart + completed >= U64_LIMIT {
        return FrameError(chunkStart, Overflow);
      }
      position := chunkStart + completed;
      if partial != 0 {
        return FrameError(position, IncompleteBlock(partial));
      }
      return FrameError(position, TruncatedPayload(MemberData, memberRemaining - Min(memberRemaining, completed)));
    }

    /** A full chunk moves the machine past it before any of it is handed out. */
    method FinishChunk() returns (error: Option<FrameError>)
      requires Filling() && chunkState.value.filled == chunkPhysical
      modifies this`position, this`state, this`chunkState
      ensures error.Some? ==>
                chunkState.None? && Readable() && ReadFailure(error.value, old(Remaining()), old(Offset()), old(Unread()), 0)
      ensures error.None? ==>
                && Valid() && chunkState.Some? && chunkState.value.Ready?
                && chunkState == Some(Ready(0))
                && Unread() == old(Unread()) && Remaining() == old(Remaining()) && Offset() == old(Offset())
    {
      if chunkStart + chunkPhysical >= U64_LIMIT {
        chunkState := None;
        return Some(FrameError(chunkStart, Overflow));
      }
      position := chunkStart + chunkPhysical;
      state := MemberPayloadState(chunkState.value.memberRemaining - chunkMeaningful);
      chunkState := Some(Ready(0));
      assert chunkBuffer[0..] == chunkBuffer[..chunkPhysical];
      return None;
    }

    /** A pending chunk always holds undelivered payload. */
    lemma NothingPending()
      requires Valid() && Remaining() == 0
      ensures chunkState.None?
    {
      if chunkState.Some? && chunkState.value.Ready? {
        ChunkPadding(chunkState.value.delivered, chunkMeaningful);
      }
    }

    lemma NothingPendingWhenRead()
      requires Valid() && Settled()
      ensures state.ReadingMember? || state == AwaitingHeader
      ensures Remaining() == 0 ==> chunkState.None? && state == AwaitingHeader
    {
      if Remaining() == 0 { NothingPending(); }
    }

    /** Between frames of one member: no chunk is pending and the state says how much payload is left. */
    ghost predicate Settled()
      reads this
    {
      chunkState.None? ==> state == AwaitingHeader || state.ReadingMember?
    }

    /** Hands out everything left of a completed chunk. */
    method TakeMemberChunk() returns (bytes: seq<Byte>)
      requires Valid() && chunkState.Some? && chunkState.value.Ready?
      modifies this`chunkBuffer, this`chunkState
      ensures Valid() && chunkState.None? && Settled()
      ensures Handed(bytes, old(Remaining()), old(Offset()), old(Unread()), Remaining(), Offset(), Unread())
      ensures |bytes| == old(chunkMeaningful) - old(chunkState.value.delivered)
    {
      hide Padded, Min;
      var delivered := chunkState.value.delivered;
      ChunkPadding(delivered, chunkMeaningful);
      ghost var unread := Unread();
      bytes := chunkBuffer[delivered..chunkMeaningful];
      assert bytes == unread[..|bytes|];
      assert unread[chunkPhysical - delivered..] == inner.unread;
      chunkState := None;
      assert block[..0] == [];
    }

    /** Hands out one block of a completed chunk. */
    method TakeMemberBlockFromChunk() returns (r: PayloadPoll)
      requires Valid() && chunkState.Some? && chunkState.value.Ready?
      modifies this`chunkState
      ensures Valid() && Settled() && r.PayloadBlock? && r.len == Min(old(Remaining()), BLOCK_SIZE)
      ensures r.position == old(Offset()) && |old(Unread())| >= BLOCK_SIZE && r.block == old(Unread())[..BLOCK_SIZE]
      ensures Handed(r.block[..r.len], old(Remaining()), old(Offset()), old(Unread()), Remaining(), Offset(), Unread())
    {
      hide Padded, Handed, Min;
      var delivered := chunkState.value.delivered;
      ghost var unread, remaining := Unread(), Remaining();
      ChunkPadding(delivered, chunkMeaningful);
      ChunkBlock(delivered, chunkMeaningful, if state.ReadingMember? then state.remaining else 0);
      var b := chunkBuffer[delivered..delivered + BLOCK_SIZE];
      ghost var rest := chunkBuffer[delivered + BLOCK_SIZE..] + inner.unread;
      SliceSplit(chunkBuffer, delivered, delivered + BLOCK_SIZE, inner.unread);
      BlockHanded(b, remaining, chunkStart + delivered, unread, rest);
      var len := Min(chunkMeaningful - delivered, BLOCK_SIZE);
      r := PayloadBlock(chunkStart + delivered, b, len);
      PassBlock(delivered, rest);
    }

    /** Moves past the first block of what is left of a chunk. */
    method PassBlock(delivered: nat, ghost rest: seq<Byte>)
      requires Valid() && chunkState == Some(Ready(delivered)) && delivered + BLOCK_SIZE <= chunkPhysical
      requires Unread() == chunkBuffer[delivered..delivered + BLOCK_SIZE] + rest
      requires rest == chunkBuffer[delivered + BLOCK_SIZE..] + inner.unread
      modifies this`chunkState
      ensures Valid() && Settled() && Unread() == rest && Offset() == old(Offset()) + BLOCK_SIZE
      ensures Remaining() == old(Remaining()) - Min(old(Remaining()), BLOCK_SIZE)
    {
      hide Padded, Min;
      ChunkPadding(delivered, chunkMeaningful);
      ChunkBlock(delivered, chunkMeaningful, if state.ReadingMember? then state.remaining else 0);
      InputAdvanced(inner.input, Offset(), Unread(), chunkBuffer[delivered..delivered + BLOCK_SIZE], rest);
      if delivered + BLOCK_SIZE == chunkPhysical {
        chunkState := None;
        assert block[..0] == [] && chunkBuffer[chunkPhysical..] == [];
        assert [] + inner.unread == inner.unread;
      } else {
        chunkState := Some(Ready(delivered + BLOCK_SIZE));
      }
    }

    lemma ChunkIsLive()
      requires Valid()
      ensures chunkState.Some? ==> !state.Failed?
    {
    }

    /** The next payload block, from a pending chunk if there is one. */
    method ReadMemberBlock() returns (r: PayloadPoll)
      requires Valid()
      modifies this`position, this`blockLen, this`state, this`chunkBuffer, this`chunkState, inner, block
      ensures Valid() && (r.PayloadPending? || r.PayloadBlock? || r.PayloadFailed?)
      ensures old(state.Failed?) ==> r.PayloadFailed?
      ensures r.PayloadPending? ==> Unread() == old(Unread()) && Remaining() == old(Remaining()) && Offset() == old(Offset())
      ensures r.PayloadPending? && old(Settled()) ==> Settled()
      ensures old(chunkState).None? ==> chunkState.None?
      ensures r.PayloadBlock? ==>
                && Settled() && 0 < r.len == Min(old(Remaining()), BLOCK_SIZE) && r.position == old(Offset())
                && |old(Unread())| >= BLOCK_SIZE && r.block == old(Unread())[..BLOCK_SIZE]
                && Handed(r.block[..r.len], old(Remaining()), old(Offset()), old(Unread()), Remaining(), Offset(), Unread())
      ensures r.PayloadFailed? ==> state.Failed? && ReadFailure(r.error, old(Remaining()), old(Offset()), old(Unread()), 0)
    {
      assert chunkState.Some? ==> !state.Failed?;
      hide ChunkValid, ReadFailure, Handed;
      if chunkState.Some? {
        var error, pending := CompleteMemberChunk();
        if pending {
          return PayloadPending;
        }
        if error.Some? {
          state := Failed;
          return PayloadFailed(error.value);
        }
        r := TakeMemberBlockFromChunk();
        return;
      }
      r := ReadPlainMemberBlock();
    }

    method ReadPlainMemberBlock() returns (r: PayloadPoll)
      requires Valid() && chunkState.None?
      modifies this`position, this`blockLen, this`state, inner, block
      ensures Valid() && (r.PayloadPending? || r.PayloadBlock? || r.PayloadFailed?)
      ensures old(state.Failed?) ==> r.PayloadFailed?
      ensures r.PayloadPending? ==> Unread() == old(Unread()) && Remaining() == old(Remaining()) && Offset() == old(Offset())
      ensures r.PayloadPending? && old(Settled()) ==> Settled()
      ensures r.PayloadBlock? ==>
                && Settled() && 0 < r.len == Min(old(Remaining()), BLOCK_SIZE) && r.position == old(Offset()) && blockLen == 0
                && |old(Unread())| >= BLOCK_SIZE && r.block == old(Unread())[..BLOCK_SIZE]
                && Handed(r.block[..r.len], old(Remaining()), old(Offset()), old(Unread()), Remaining(), Offset(), Unread())
      ensures r.PayloadFailed? ==> state.Failed? && ReadFailure(r.error, old(Remaining()), old(Offset()), old(Unread()), 0)
    {
      hide Handed, ReadFailure, Padded, Min;
      if !state.ReadingMember? || blockLen == BLOCK_SIZE {
        NothingToRead(position, Remaining(), Offset(), Unread(), 0);
        state := Failed;
        return PayloadFailed(FrameError(position, UnexpectedOrder(MemberPayload, NoMemberPayload)));
      }
      ghost var unread, offset := Unread(), Offset();
      var remaining := state.remaining;
      var read := PollReadBlock();
      match read
      case BlockPending => return PayloadPending;
      case EndOfInput =>
        InputEnded(remaining, offset);
        state := Failed;
        return PayloadFailed(FrameError(position, TruncatedPayload(MemberData, remaining)));
      case BlockFailed(e) =>
        BlockBroken(e, remaining, offset, unread);
        state := Failed;
        return PayloadFailed(e);
      case BlockReady(p, b) =>
        r := CountBlock(p, b, unread);
    }

    /** Counts the block just read against the member's payload. */
    method CountBlock(p: U64, b: Block, ghost unread: seq<Byte>) returns (r: PayloadPoll)
      requires Readable() && globals.Valid() && chunkState.None? && blockLen == 0 && position == p + BLOCK_SIZE
      requires state.ReadingMember? && state.remaining > 0 && unread == b + inner.unread
      requires p <= |inner.input| && unread == inner.input[p..]
      modifies this`state
      ensures Valid() && Settled() && r.PayloadBlock?
      ensures 0 < r.len == Min(old(Remaining()), BLOCK_SIZE) && r.position == p
      ensures |unread| >= BLOCK_SIZE && r.block == unread[..BLOCK_SIZE]
      ensures Handed(r.block[..r.len], old(Remaining()), p, unread, Remaining(), Offset(), Unread())
    {
      hide Handed, Padded, Min;
      ghost var rest := inner.unread;
      BlockHanded(b, state.remaining, p, unread, rest);
      InputAdvanced(inner.input, p, unread, b, rest);
      var len := Min(state.remaining, BLOCK_SIZE);
      r := PayloadBlock(p, b, len);
      state := MemberPayloadState(state.remaining - len);
      assert block[..0] == [];
      assert [] + inner.unread == inner.unread;
    }

    /** The payload bytes of the pending chunk that are still to be handed out. */
    ghost function Retained(): nat
      requires chunkState.Some? ==> ChunkValid()
      reads this
    {
      match chunkState
      case None => 0
      case Some(Reading(_, _)) => chunkMeaningful
      case Some(Ready(delivered)) => if delivered <= chunkMeaningful then chunkMeaningful - delivered else 0
    }

    /** How long the next chunk will be, by what an earlier call left behind. */
    ghost function DueBytes(target: U64): nat
      requires chunkState.Some? ==> ChunkValid()
      reads this
    {
      if chunkState.Some? then Retained()
      else if blockLen != 0 then Min(Remaining(), BLOCK_SIZE)
      else ChunkSpan(Remaining(), target)
    }

    /** When the next chunk reaches its target or the payload's end. */
    ghost predicate ReachesTarget(target: U64)
      requires chunkState.Some? ==> ChunkValid()
      reads this
    {
      if chunkState.Some? then Retained() >= Min(Remaining(), target)
      else blockLen == 0 || target <= BLOCK_SIZE || Remaining() <= BLOCK_SIZE
    }

    /** The documented promise holds of a chunk exactly in those cases. */
    lemma DueMeetsTarget(target: U64)
      requires chunkState.Some? ==> ChunkValid()
      ensures DueBytes(target) >= Min(Remaining(), target) <==> ReachesTarget(target)
    {
      SpanCovers(Remaining(), target);
    }

    /** Reads a started chunk to its end and hands over what is left of it. */
    method DeliverChunk() returns (r: PayloadPoll)
      requires Valid() && chunkState.Some?
      modifies this`position, this`state, this`chunkBuffer, this`chunkState, inner
      ensures Valid() && (r.PayloadPending? || r.PayloadChunk? || r.PayloadFailed?)
      ensures r.PayloadPending? ==>
                && chunkState.Some?
                && Unread() == old(Unread()) && Remaining() == old(Remaining()) && Offset() == old(Offset())
      ensures r.PayloadChunk? ==>
                && Settled() && 0 < |r.bytes|
                && |r.bytes| == old(Retained())
                && Handed(r.bytes, old(Remaining()), old(Offset()), old(Unread()), Remaining(), Offset(), Unread())
      ensures r.PayloadFailed? ==> state.Failed? && ReadFailure(r.error, old(Remaining()), old(Offset()), old(Unread()), 0)
    {
      hide ChunkValid, ReadFailure, Padded;
      var error, pending := CompleteMemberChunk();
      if pending {
        return PayloadPending;
      }
      if error.Some? {
        state := Failed;
        return PayloadFailed(error.value);
      }
      var bytes := TakeMemberChunk();
      return PayloadChunk(bytes);
    }

    /** The next run of payload bytes; a retained partial block or chunk is delivered first. */
    method ReadMemberChunk(target: U64) returns (r: PayloadPoll)
      requires Valid()
      modifies this`position, this`blockLen, this`state, this`chunkBuffer, this`chunkStart, this`chunkPhysical,
               this`chunkMeaningful, this`chunkState, inner, block
      ensures Valid() && (r.PayloadPending? || r.PayloadChunk? || r.PayloadFailed?)
      ensures old(state.Failed?) ==> r.PayloadFailed?
      ensures r.PayloadPending? ==> Unread() == old(Unread()) && Remaining() == old(Remaining()) && Offset() == old(Offset())
      ensures r.PayloadPending? && old(Settled()) ==> Settled()
      ensures r.PayloadChunk? ==>
                && Settled() && 0 < |r.bytes|
                && |r.bytes| == old(DueBytes(target))
                && (|r.bytes| >= Min(old(Remaining()), target) <==> old(ReachesTarget(target)))
                && Handed(r.bytes, old(Remaining()), old(Offset()), old(Unread()), Remaining(), Offset(), Unread())
      ensures r.PayloadFailed? ==> state.Failed? && ReadFailure(r.error, old(Remaining()), old(Offset()), old(Unread()), 0)
    {
      hide ChunkValid, ReadFailure, Handed, Padded, ChunkSpan;
      ChunkIsLive();
      DueMeetsTarget(target);
      if chunkState.None? && blockLen != 0 {
        var b := ReadMemberBlock();
        match b
        case PayloadBlock(_, bytes, len) => return PayloadChunk(bytes[..len]);
        case PayloadPending => return PayloadPending;
        case PayloadFailed(e) => return PayloadFailed(e);
      }
      if chunkState.None? {
        var started := StartMemberChunk(target);
        if started.Some? {
          state := Failed;
          return PayloadFailed(started.value);
        }
      }
      r := DeliverChunk();
    }
  }

  /**
   * A chunk that falls short: a block read stalls part-way, its caller gives up, and the chunk call for 1024 bytes
   * that follows delivers that one block, though more than a block was left.
   */
  method ShortChunkAfterStall(stream: TarStream) returns (read: PayloadPoll, kept: nat, chunk: PayloadPoll)
    requires stream.Valid() && stream.chunkState.None? && stream.state.ReadingMember? && stream.state.remaining > BLOCK_SIZE
    modifies stream, stream.inner, stream.block
    ensures stream.Valid()
    ensures read.PayloadPending? && kept > 0 && chunk.PayloadChunk? ==>
              |chunk.bytes| == BLOCK_SIZE < Min(old(stream.Remaining()), 1024)
  {
    hide Handed, ReadFailure, Padded;
    read := stream.ReadMemberBlock();
    kept, chunk := stream.blockLen, PayloadPending;
    if read.PayloadPending? && kept > 0 {
      chunk := stream.ReadMemberChunk(1024);
    }
  }

  /** A stream with 100 bytes of a 1024-byte payload retained from a block read that was given up. */
  method PartialStream(input: seq<Byte>) returns (stream: TarStream)
    requires |input| == 2048
    ensures fresh(stream) && fresh(stream.inner) && fresh(stream.block) && stream.Valid()
    ensures stream.chunkState.None? && stream.blockLen == 100 && stream.Remaining() == 1024
  {
    hide Padded, TarStream.Valid, TarStream.Unread, TarStream.ChunkValid, TarStream.Remaining, GlobalPaxRecords.Valid;
    var source := new ByteSource(input);
    stream := new TarStream(source, DEFAULT_STREAM_POLICY);
    FreshStream(stream);
    stream.position, stream.state := 512, ReadingMember(1024);
    stream.AppendToBlock(input[512..612]);
    source.unread := input[612..];
    PartialIsValid(stream);
  }

  lemma FreshStream(stream: TarStream)
    requires stream.Valid() && stream.position == 0 && stream.chunkState.None? && stream.Unread() == stream.inner.input
    requires stream.inner.unread == stream.inner.input
    ensures stream.blockLen == 0 && stream.block.Length == BLOCK_SIZE && stream.globals.Valid()
  {
  }

  lemma PartialIsValid(stream: TarStream)
    requires stream.chunkState.None? && stream.globals.Valid() && stream.block.Length == BLOCK_SIZE
    requires |stream.inner.input| == 2048 && stream.inner.unread == stream.inner.input[612..]
    requires stream.blockLen == 100 && stream.block[..100] == [] + stream.inner.input[512..612]
    requires stream.position == 512 && stream.state == ReadingMember(1024)
    ensures stream.Valid() && stream.Remaining() == 1024
  {
    var input := stream.inner.input;
    SliceSplit(input, 512, 612, []);
    assert input[512..] + [] == input[512..] && input[612..] + [] == input[612..] && [] + input[512..612] == input[512..612];
  }

  /** The chunk it then hands out for a target of 1024 bytes has 512. */
  method RetainedBlockWitness(input: seq<Byte>) returns (chunk: PayloadPoll)
    requires |input| == 2048
    ensures chunk.PayloadChunk? ==> |chunk.bytes| == 512
  {
    hide Handed, ReadFailure, Padded;
    var stream := PartialStream(input);
    chunk := stream.ReadMemberChunk(1024);
  }

  /** `bytes` are the next payload bytes, and exactly the blocks that hold them were used up. */
  ghost predicate Handed(
      bytes: seq<Byte>, remaining: nat, offset: nat, unread: seq<Byte>, remaining': nat, offset': nat, unread': seq<Byte>)
  {
    && 0 < |bytes| <= remaining && remaining' == remaining - |bytes|
    && Padded(|bytes|) <= |unread|
    && bytes == unread[..|bytes|] && unread' == unread[Padded(|bytes|)..]
    && offset' == offset + Padded(|bytes|)
    && (remaining' > 0 ==> |bytes| % BLOCK_SIZE == 0)
  }

  /** The payload bytes a fresh chunk covers: whole blocks up to the target, and at least one, or all that is left. */
  function ChunkSpan(remaining: nat, target: nat): nat
  {
    Min(remaining, Padded(Min(remaining, if target < BLOCK_SIZE then BLOCK_SIZE else target)))
  }

  lemma SpanCovers(remaining: nat, target: nat)
    ensures ChunkSpan(remaining, target) >= Min(remaining, target)
  {
  }

  lemma InputAdvanced(input: seq<Byte>, offset: nat, unread: seq<Byte>, block: Block, rest: seq<Byte>)
    requires offset <= |input| && unread == input[offset..] && unread == block + rest
    ensures offset + BLOCK_SIZE <= |input| && rest == input[offset + BLOCK_SIZE..]
  {
    assert rest == unread[BLOCK_SIZE..];
  }

  lemma NothingToRead(position: U64, remaining: nat, offset: nat, unread: seq<Byte>, blockLen: nat)
    requires remaining == 0
    ensures ReadFailure(FrameError(position, UnexpectedOrder(MemberPayload, NoMemberPayload)), remaining, offset, unread, blockLen)
  {
  }

  lemma NotAligned(position: U64, remaining: nat, offset: nat, unread: seq<Byte>, blockLen: nat)
    requires blockLen != 0
    ensures ReadFailure(FrameError(position, UnexpectedOrder(AlignedPayload, PartialBlock)), remaining, offset, unread, blockLen)
  {
  }

  /** A fresh chunk covers whole blocks of what is left; one that is too long for an offset has too much left. */
  lemma ChunkFits(remaining: nat, wanted: nat, position: U64, unread: seq<Byte>)
    requires 0 < remaining && BLOCK_SIZE <= wanted
    ensures var physical := Padded(Min(remaining, wanted));
            && 0 < physical && 0 < Min(remaining, physical) && physical == Padded(Min(remaining, physical))
            && (physical >= U64_LIMIT ==> ReadFailure(FrameError(position, Overflow), remaining, position, unread, 0))
  {
  }

  lemma InputEnded(remaining: nat, offset: U64)
    requires remaining > 0
    ensures ReadFailure(FrameError(offset, TruncatedPayload(MemberData, remaining)), remaining, offset, [], 0)
  {
  }

  lemma BlockBroken(e: FrameError, remaining: nat, offset: U64, unread: seq<Byte>)
    requires remaining > 0
    requires || e.fault == IoFailure
             || (0 < |unread| < BLOCK_SIZE && e == FrameError(offset, IncompleteBlock(|unread|)))
             || (|unread| >= BLOCK_SIZE && offset + BLOCK_SIZE >= U64_LIMIT && e == FrameError(offset, Overflow))
    ensures ReadFailure(e, remaining, offset, unread, 0)
  {
  }

  /** One block read directly. */
  lemma BlockHanded(block: Block, remaining: nat, offset: nat, unread: seq<Byte>, rest: seq<Byte>)
    requires remaining > 0 && unread == block + rest
    ensures var len := Min(remaining, BLOCK_SIZE);
            0 < len <= BLOCK_SIZE && len <= remaining && block == unread[..BLOCK_SIZE]
            && Handed(block[..len], remaining, offset, unread, remaining - len, offset + BLOCK_SIZE, rest)
  {
    var len := Min(remaining, BLOCK_SIZE);
    assert block[..len] == unread[..len];
  }

  lemma ChunkPadding(delivered: nat, meaningful: nat)
    requires delivered % BLOCK_SIZE == 0 && delivered < Padded(meaningful) && 0 < meaningful
    ensures delivered < meaningful <= Padded(meaningful) && Padded(meaningful) % BLOCK_SIZE == 0
    ensures Padded(meaningful - delivered) == Padded(meaningful) - delivered
    ensures Padded(Min(meaningful - delivered, BLOCK_SIZE)) == BLOCK_SIZE
    ensures delivered + BLOCK_SIZE <= Padded(meaningful)
  {
  }

  /** Bytes read behind what a buffer already holds. */
  lemma FilledFurther(buffer: seq<Byte>, filled: nat, bytes: seq<Byte>, rest: seq<Byte>)
    requires filled + |bytes| <= |buffer|
    ensures var after := buffer[..filled] + bytes + buffer[filled + |bytes|..];
            |after| == |buffer| && after[..filled + |bytes|] + rest == buffer[..filled] + (bytes + rest)
  {
    var after := buffer[..filled] + bytes + buffer[filled + |bytes|..];
    assert after[..filled + |bytes|] == buffer[..filled] + bytes;
  }

  lemma SliceSplit(s: seq<Byte>, lo: nat, hi: nat, tail: seq<Byte>)
    requires lo <= hi <= |s|
    ensures s[lo..] + tail == s[lo..hi] + (s[hi..] + tail)
  {
  }

  /** One block of a chunk: as long as one of the whole rest, and what is left behind it. */
  lemma ChunkBlock(delivered: nat, meaningful: nat, inState: nat)
    requires delivered % BLOCK_SIZE == 0 && delivered < meaningful && (inState > 0 ==> meaningful == Padded(meaningful))
    ensures var len := Min(meaningful - delivered, BLOCK_SIZE); var remaining := meaningful - delivered + inState;
            && 0 < len <= BLOCK_SIZE && len == Min(remaining, BLOCK_SIZE)
            && remaining - len == inState + if delivered + BLOCK_SIZE < meaningful then meaningful - (delivered + BLOCK_SIZE) else 0
    ensures delivered + BLOCK_SIZE < Padded(meaningful) ==> delivered + BLOCK_SIZE < meaningful
    ensures (delivered + BLOCK_SIZE) % BLOCK_SIZE == 0
  {
  }

  /** Input that ends inside a chunk ends inside the member's padded payload. */
  lemma ShortChunk(memberRemaining: nat, physical: nat, filled: nat)
    requires filled < physical == Padded(Min(memberRemaining, physical))
    ensures filled < Padded(memberRemaining)
    ensures filled - filled % BLOCK_SIZE <= memberRemaining
  {
  }

  /** The error a payload read may report, given what was left to read when it was called. */
  ghost predicate ReadFailure(e: FrameError, remaining: nat, offset: nat, unread: seq<Byte>, blockLen: nat)
  {
    var whole := |unread| - |unread| % BLOCK_SIZE;
    || e.fault == IoFailure
    || (remaining == 0 && e.fault == UnexpectedOrder(MemberPayload, NoMemberPayload))
    || (blockLen != 0 && e.fault == UnexpectedOrder(AlignedPayload, PartialBlock))
    || (offset + Padded(remaining) >= U64_LIMIT && e.fault == Overflow)
    || (|unread| < Padded(remaining) && e.position == offset + whole && e.fault ==
        if |unread| > whole then IncompleteBlock(|unread| - whole) else TruncatedPayload(MemberData, remaining - whole))
  }

  /** At most end-marker blocks lie between two machines. */
  ghost predicate EndMarkerOnly(m: Machine, m': Machine)
  {
    || m == m'
    || (&& (m'.state.AwaitingSecondZero? || m'.state.Complete?) && m' == m.(state := m'.state)
        && (m.state.AwaitingHeader? || m.state.AwaitingSecondZero? || m.state.Complete?))
  }

  /** An input that ends before the next whole block fails with the fault its length and the state determine. */
  lemma InputStops(m: Machine, position: U64, bytes: seq<Byte>)
    requires !Finished(m) && (|bytes| < BLOCK_SIZE || position + BLOCK_SIZE >= U64_LIMIT)
    ensures Framing.NextFrame(m, position, bytes).ScanFail? && Framing.NextFrame(m, position, bytes).error.position == position
    ensures var fault := Framing.NextFrame(m, position, bytes).error.fault;
            && (bytes == [] ==> fault == EofFault(m.state))
            && (0 < |bytes| < BLOCK_SIZE ==> fault == IncompleteBlock(|bytes|))
            && (|bytes| >= BLOCK_SIZE ==> fault == Overflow)
  {
    hide EofFault;
    ScanStops(m, position, bytes);
  }

  /** What one block does to the scan: a frame, an error, or one step into the end marker. */
  lemma OneBlockScanned(m: Machine, position: U64, block: Block, rest: seq<Byte>)
    requires !Finished(m) && position + BLOCK_SIZE < U64_LIMIT
    ensures var scan := Framing.NextFrame(m, position, block + rest);
            match Step(m, position, block)
            case Err(e) => scan == ScanFail(e)
            case Ok((m', frame)) =>
              && (frame.Some? ==> scan == ScanFrame(m', frame.value, position + BLOCK_SIZE, rest))
              && (frame.None? ==>
                    && scan == Framing.NextFrame(m', position + BLOCK_SIZE, rest)
                    && EndRank(m'.state) < EndRank(m.state) && EndMarkerOnly(m, m'))
              && (m'.state.ReadingMember? ==> 0 < m'.state.remaining)
  {
    hide Step, Framing.NextFrame;
    ScanOneBlock(m, position, block, rest);
    if Step(m, position, block).Ok? {
      StepKeepsBlock(m, position, block);
    }
  }

  lemma FinishedScan(m: Machine, position: U64, bytes: seq<Byte>)
    requires Finished(m)
    ensures Framing.NextFrame(m, position, bytes) == ScanEnd(m)
  {
  }
}
