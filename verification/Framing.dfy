/** The block-level machine of a tar stream: what one block does to the parser, and the frame it yields. */
module Framing {
  import opened Octets
  import opened Numbers
  import opened Header
  import opened PaxRecords
  import opened Pax

  datatype ArchiveFormat = PaxFormat | GnuFormat

  datatype GnuKind = LongName | LongLink

  datatype UstarKind =
    | Regular | HardLink | SymbolicLink | CharacterDevice | BlockDevice | Directory | Fifo | Contiguous

  datatype DataOwner = PaxData(paxKind: PaxKind) | GnuData(gnuKind: GnuKind) | MemberData

  datatype Expected =
    | MemberPayload
    | UstarHeaderAfterLocalPax
    | GnuHeaderAfterExtension
    | GnuHeaderOrOtherExtension
    | LinkMemberAfterLongLink
    | ExtensionOrMemberHeader
    | PaxExtensionPayload
    | GnuMetadataPayload
    | AlignedPayload
    | PendingChunk
    | CompletedChunk

  datatype Found =
    | NoMemberPayload
    | EndMarker
    | AnotherPaxHeader
    | DuplicateGnuExtension
    | NonLinkMember
    | UnattachedPayload
    | DifferentPayload
    | OversizedPayload
    | PartialBlock
    | NoChunk
    | IncompleteChunk

  datatype FieldName = ModeField | UidField | GidField | MtimeField | UnameField | GnameField | SizeKeyword | PathKeyword | LinkPathKeyword

  datatype Fault =
    | IoFailure
    | IncompleteBlock(read: nat)
    | InvalidIdentity(found: seq<Byte>)
    | InvalidChecksum(stored: Option<U64>, actual: nat)
    | InvalidSize(found: seq<Byte>)
    | InvalidNumericField(field: FieldName, found: seq<Byte>)
    | UnterminatedStringField(field: FieldName)
    | UnsupportedTypeflag(typeflag: Byte)
    | FormatMismatch(expectedFormat: ArchiveFormat, foundFormat: ArchiveFormat)
    | UnexpectedOrder(expectation: Expected, finding: Found)
    | InvalidPaxRecord(source: PaxError)
    | ExtensionTooLarge(format: ArchiveFormat, size: U64, limit: U64)
    | GlobalPaxExtensionsTooLarge(total: nat, limit: U64)
    | InvalidGnuMetadata(gnuKind: GnuKind, terminated: bool)
    | DeletedPaxMetadata(keyword: FieldName)
    | EmptyMemberPath
    | NulInMemberName(keyword: FieldName)
    | InvalidMemberSize(kind: UstarKind, size: U64)
    | TruncatedPayload(owner: DataOwner, remaining: nat)
    | UnexpectedEof
    | MissingEndMarker
    | InvalidEndMarker
    | Overflow

  datatype FrameError = FrameError(position: U64, fault: Fault)

  /** An ordinary member header. */
  datatype MemberHeader = MemberHeader(
    position: U64,
    block: Block,
    format: ArchiveFormat,
    kind: UstarKind,
    declaredSize: U64,
    effectiveSize: U64,
    mode: Option<U64>,
    uid: Option<U64>,
    gid: Option<U64>,
    mtime: Option<U64>)

  datatype Frame =
    | PaxFrame(position: U64, block: Block, paxKind: PaxKind, payloadSize: U64)
    | GnuFrame(position: U64, block: Block, gnuKind: GnuKind, payloadSize: U64)
    | HeaderFrame(header: MemberHeader)
    | DataFrame(position: U64, block: Block, len: nat, owner: DataOwner, completed: Option<seq<PaxRecord>>)

  /** The bytes a frame was made from. */
  function FrameBlock(f: Frame): Block
  {
    match f
    case HeaderFrame(h) => h.block
    case PaxFrame(_, b, _, _) => b
    case GnuFrame(_, b, _, _) => b
    case DataFrame(_, b, _, _, _) => b
  }

  function FramePosition(f: Frame): U64
  {
    match f
    case HeaderFrame(h) => h.position
    case PaxFrame(p, _, _, _) => p
    case GnuFrame(p, _, _, _) => p
    case DataFrame(p, _, _, _, _) => p
  }

  datatype PendingGnu = PendingGnu(longName: bool, longLink: bool)

  datatype State =
    | AwaitingHeader
    | ReadingPax(paxKind: PaxKind, headerPosition: U64, paxRemaining: U64, payload: seq<Byte>)
    | AwaitingUstarHeader(records: seq<PaxRecord>)
    | ReadingGnu(gnuKind: GnuKind, gnuRemaining: U64, pending: PendingGnu)
    | AwaitingGnuMember(pending: PendingGnu)
    | ReadingMember(remaining: U64)
    | AwaitingSecondZero
    | Complete
    | Failed

  datatype StreamPolicy = StreamPolicy(
    maxPaxExtensionSize: U64,
    maxGlobalPaxExtensionsSize: U64,
    allowAllNulNumericFields: bool,
    maxGnuExtensionSize: U64)

  const DEFAULT_STREAM_POLICY := StreamPolicy(256 * 1024, 4 * 256 * 1024, true, 128 * 1024)

  /** Everything that decides what the next block means; `globals` is the history of global records. */
  datatype Machine = Machine(
    state: State,
    format: Option<ArchiveFormat>,
    globals: seq<PaxRecord>,
    globalSize: U64,
    policy: StreamPolicy)

  function Start(policy: StreamPolicy): Machine
  {
    Machine(AwaitingHeader, None, [], 0, policy)
  }

  predicate IsZeroBlock(block: Block) { AllNul(block) }

  function MemberPayloadState(remaining: U64): State
  {
    if remaining == 0 then AwaitingHeader else ReadingMember(remaining)
  }

  // --------------------------------------------------------- header parsing

  datatype ParsedHeader = ParsedHeader(format: ArchiveFormat, typeflag: Byte, size: U64)

  function Fail<T>(position: U64, fault: Fault): Result<T, FrameError>
  {
    Err(FrameError(position, fault))
  }

  function ParseNumber(format: ArchiveFormat, bytes: seq<Byte>): Option<U64>
  {
    match format
    case PaxFormat => ParseOctal(bytes)
    case GnuFormat => ParseGnuNumber(bytes)
  }

  function IdentifyFormat(block: Block): Option<ArchiveFormat>
  {
    var identity := block[LINK_NAME_END..IDENTITY_END];
    if identity == USTAR_IDENTITY then Some(PaxFormat)
    else if identity == GNU_IDENTITY then Some(GnuFormat)
    else None
  }

  function ParseHeader(position: U64, block: Block): Result<ParsedHeader, FrameError>
  {
    match IdentifyFormat(block)
    case None => Fail(position, InvalidIdentity(block[LINK_NAME_END..IDENTITY_END]))
    case Some(format) =>
      var stored := ParseOctal(block[MTIME_END..CHECKSUM_END]);
      if stored != Some(Checksum(block)) then Fail(position, InvalidChecksum(stored, Checksum(block)))
      else
        match ParseNumber(format, block[GID_END..SIZE_END])
        case None => Fail(position, InvalidSize(block[GID_END..SIZE_END]))
        case Some(size) => Ok(ParsedHeader(format, block[TYPEFLAG_OFFSET], size))
  }

  function KindOf(typeflag: Byte): Option<UstarKind>
  {
    if typeflag == 0 || typeflag == 48 then Some(Regular)
    else if typeflag == 49 then Some(HardLink)
    else if typeflag == 50 then Some(SymbolicLink)
    else if typeflag == 51 then Some(CharacterDevice)
    else if typeflag == 52 then Some(BlockDevice)
    else if typeflag == 53 then Some(Directory)
    else if typeflag == 54 then Some(Fifo)
    else if typeflag == 55 then Some(Contiguous)
    else None
  }

  function NumericField(position: U64, format: ArchiveFormat, field: FieldName, bytes: seq<Byte>, allowNul: bool):
    Result<Option<U64>, FrameError>
  {
    if allowNul && AllNul(bytes) then Ok(None)
    else
      match ParseNumber(format, bytes)
      case Some(n) => Ok(Some(n))
      case None => Fail(position, InvalidNumericField(field, bytes))
  }

  /** The four numeric metadata fields, first failure first. */
  function NumericFields(position: U64, format: ArchiveFormat, block: Block, allowNul: bool):
    Result<(Option<U64>, Option<U64>, Option<U64>, Option<U64>), FrameError>
  {
    match NumericField(position, format, ModeField, block[NAME_END..MODE_END], allowNul)
    case Err(e) => Err(e)
    case Ok(mode) =>
      match NumericField(position, format, UidField, block[MODE_END..UID_END], allowNul)
      case Err(e) => Err(e)
      case Ok(uid) =>
        match NumericField(position, format, GidField, block[UID_END..GID_END], allowNul)
        case Err(e) => Err(e)
        case Ok(gid) =>
          match NumericField(position, format, MtimeField, block[SIZE_END..MTIME_END], allowNul)
          case Err(e) => Err(e)
          case Ok(mtime) => Ok((mode, uid, gid, mtime))
  }

  predicate CarriesPayload(format: ArchiveFormat, kind: UstarKind)
  {
    kind == Regular || kind == Contiguous || (format == PaxFormat && kind == HardLink)
  }

  /** The size that frames the member: the effective pax `size`, or the header's own. */
  function EffectiveSize(position: U64, declared: U64, sizeRecord: Option<PaxRecord>): Result<U64, FrameError>
  {
    match sizeRecord
    case Some(PaxRecord(_, Value(Number(size)))) => Ok(size)
    case Some(PaxRecord(_, Deleted)) => Fail(position, DeletedPaxMetadata(SizeKeyword))
    case _ => Ok(declared)
  }

  function UstarHeader(
      position: U64, block: Block, parsed: ParsedHeader, sizeRecord: Option<PaxRecord>, allowNul: bool):
    Result<MemberHeader, FrameError>
  {
    match KindOf(parsed.typeflag)
    case None => Fail(position, UnsupportedTypeflag(parsed.typeflag))
    case Some(kind) =>
      match NumericFields(position, PaxFormat, block, allowNul)
      case Err(e) => Err(e)
      case Ok((mode, uid, gid, mtime)) =>
        if 0 !in block[IDENTITY_END..UNAME_END] then Fail(position, UnterminatedStringField(UnameField))
        else if 0 !in block[UNAME_END..GNAME_END] then Fail(position, UnterminatedStringField(GnameField))
        else
          match EffectiveSize(position, parsed.size, sizeRecord)
          case Err(e) => Err(e)
          case Ok(size) =>
            if !CarriesPayload(PaxFormat, kind) && parsed.size != 0 then Fail(position, InvalidMemberSize(kind, parsed.size))
            else if !CarriesPayload(PaxFormat, kind) && size != 0 then Fail(position, InvalidMemberSize(kind, size))
            else Ok(MemberHeader(position, block, PaxFormat, kind, parsed.size, size, mode, uid, gid, mtime))
  }

  function GnuHeader(position: U64, block: Block, parsed: ParsedHeader, requireLink: bool, allowNul: bool): Result<MemberHeader, FrameError>
  {
    match KindOf(parsed.typeflag)
    case None => Fail(position, UnsupportedTypeflag(parsed.typeflag))
    case Some(kind) =>
      if requireLink && kind != HardLink && kind != SymbolicLink then
        Fail(position, UnexpectedOrder(LinkMemberAfterLongLink, NonLinkMember))
      else if !CarriesPayload(GnuFormat, kind) && parsed.size != 0 then Fail(position, InvalidMemberSize(kind, parsed.size))
      else
        match NumericFields(position, GnuFormat, block, allowNul)
        case Err(e) => Err(e)
        case Ok((mode, uid, gid, mtime)) =>
          Ok(MemberHeader(position, block, GnuFormat, kind, parsed.size, parsed.size, mode, uid, gid, mtime))
  }

  // ---------------------------------------------------------------- one step

  type StepResult = Result<(Machine, Option<Frame>), FrameError>

  const TYPE_PAX_LOCAL: Byte := 120
  const TYPE_PAX_GLOBAL: Byte := 103
  const TYPE_GNU_LONG_NAME: Byte := 76
  const TYPE_GNU_LONG_LINK: Byte := 75

  /** Parses a header of the archive's one family, selecting the family on the first header. */
  function CheckedHeader(m: Machine, position: U64, block: Block): Result<(Machine, ParsedHeader), FrameError>
  {
    match ParseHeader(position, block)
    case Err(e) => Err(e)
    case Ok(parsed) =>
      if m.format.Some? && m.format.value != parsed.format then Fail(position, FormatMismatch(m.format.value, parsed.format))
      else Ok((m.(format := Some(parsed.format)), parsed))
  }

  function PaxHeaderStep(m: Machine, position: U64, block: Block, size: U64, kind: PaxKind): StepResult
  {
    if size > m.policy.maxPaxExtensionSize then Fail(position, ExtensionTooLarge(PaxFormat, size, m.policy.maxPaxExtensionSize))
    else if kind == Global && m.globalSize + size >= U64_LIMIT then Fail(position, Overflow)
    else if kind == Global && m.globalSize + size > m.policy.maxGlobalPaxExtensionsSize then
      Fail(position, GlobalPaxExtensionsTooLarge(m.globalSize + size, m.policy.maxGlobalPaxExtensionsSize))
    else if size == 0 then Fail(position, InvalidPaxRecord(InvalidRecords(NoRecords)))
    else
      var total := if kind == Global then m.globalSize + size else m.globalSize;
      Ok((m.(state := ReadingPax(kind, position, size, []), globalSize := total), Some(PaxFrame(position, block, kind, size))))
  }

  function UstarHeaderStep(m: Machine, position: U64, block: Block, parsed: ParsedHeader, local: Option<seq<PaxRecord>>): StepResult
  {
    match UstarHeader(position, block, parsed, EffectiveRecord(local, m.globals, SizeKey), m.policy.allowAllNulNumericFields)
    case Err(e) => Err(e)
    case Ok(header) => Ok((m.(state := MemberPayloadState(header.effectiveSize)), Some(HeaderFrame(header))))
  }

  function GnuExtensionOf(typeflag: Byte): Option<GnuKind>
  {
    if typeflag == TYPE_GNU_LONG_NAME then Some(LongName)
    else if typeflag == TYPE_GNU_LONG_LINK then Some(LongLink)
    else None
  }

  predicate Seen(pending: PendingGnu, kind: GnuKind)
  {
    if kind == LongName then pending.longName else pending.longLink
  }

  function MarkSeen(pending: PendingGnu, kind: GnuKind): PendingGnu
  {
    if kind == LongName then pending.(longName := true) else pending.(longLink := true)
  }

  function GnuHeaderStep(m: Machine, position: U64, block: Block, parsed: ParsedHeader, pending: PendingGnu): StepResult
  {
    match GnuExtensionOf(parsed.typeflag)
    case Some(kind) =>
      if Seen(pending, kind) then Fail(position, UnexpectedOrder(GnuHeaderOrOtherExtension, DuplicateGnuExtension))
      else if parsed.size > m.policy.maxGnuExtensionSize then
        Fail(position, ExtensionTooLarge(GnuFormat, parsed.size, m.policy.maxGnuExtensionSize))
      else
        var seen := MarkSeen(pending, kind);
        var next := if parsed.size == 0 then AwaitingGnuMember(seen) else ReadingGnu(kind, parsed.size, seen);
        Ok((m.(state := next), Some(GnuFrame(position, block, kind, parsed.size))))
    case None =>
      match GnuHeader(position, block, parsed, pending.longLink, m.policy.allowAllNulNumericFields)
      case Err(e) => Err(e)
      case Ok(header) => Ok((m.(state := MemberPayloadState(header.effectiveSize)), Some(HeaderFrame(header))))
  }

  function BoundaryStep(m: Machine, position: U64, block: Block): StepResult
  {
    match CheckedHeader(m, position, block)
    case Err(e) => Err(e)
    case Ok((m', parsed)) =>
      if parsed.format == GnuFormat then GnuHeaderStep(m', position, block, parsed, PendingGnu(false, false))
      else if parsed.typeflag == TYPE_PAX_LOCAL then PaxHeaderStep(m', position, block, parsed.size, Local)
      else if parsed.typeflag == TYPE_PAX_GLOBAL then PaxHeaderStep(m', position, block, parsed.size, Global)
      else UstarHeaderStep(m', position, block, parsed, None)
  }

  /** Whether a header of the POSIX family is an extension header. */
  predicate IsPaxExtension(typeflag: Byte)
  {
    typeflag == TYPE_PAX_LOCAL || typeflag == TYPE_PAX_GLOBAL
  }

  function PaxDataStep(
      m: Machine, position: U64, block: Block, kind: PaxKind, headerPosition: U64, remaining: U64, collected: seq<Byte>): StepResult
  {
    var len := Min(remaining, BLOCK_SIZE);
    var payload := collected + block[..len];
    if remaining > len then
      Ok((m.(state := ReadingPax(kind, headerPosition, remaining - len, payload)),
          Some(DataFrame(position, block, len, PaxData(kind), None))))
    else
      match ParsePayload(payload, GlobalCharset(m.globals))
      case Err(e) => Fail(headerPosition, InvalidPaxRecord(e))
      case Ok(records) =>
        var frame := DataFrame(position, block, len, PaxData(kind), Some(records));
        if kind == Local then Ok((m.(state := AwaitingUstarHeader(records)), Some(frame)))
        else Ok((m.(state := AwaitingHeader, globals := m.globals + records), Some(frame)))
  }

  function LocalMemberStep(m: Machine, position: U64, block: Block, records: seq<PaxRecord>): StepResult
  {
    if IsZeroBlock(block) then Fail(position, UnexpectedOrder(UstarHeaderAfterLocalPax, EndMarker))
    else
      match CheckedHeader(m, position, block)
      case Err(e) => Err(e)
      case Ok((m', parsed)) =>
        if IsPaxExtension(parsed.typeflag) then Fail(position, UnexpectedOrder(UstarHeaderAfterLocalPax, AnotherPaxHeader))
        else UstarHeaderStep(m', position, block, parsed, Some(records))
  }

  function GnuDataStep(m: Machine, position: U64, block: Block, kind: GnuKind, remaining: U64, pending: PendingGnu): StepResult
  {
    var len := Min(remaining, BLOCK_SIZE);
    var next := if remaining == len then AwaitingGnuMember(pending) else ReadingGnu(kind, remaining - len, pending);
    Ok((m.(state := next), Some(DataFrame(position, block, len, GnuData(kind), None))))
  }

  function GnuMemberStep(m: Machine, position: U64, block: Block, pending: PendingGnu): StepResult
  {
    if IsZeroBlock(block) then Fail(position, UnexpectedOrder(GnuHeaderAfterExtension, EndMarker))
    else
      match CheckedHeader(m, position, block)
      case Err(e) => Err(e)
      case Ok((m', parsed)) => GnuHeaderStep(m', position, block, parsed, pending)
  }

  function MemberDataStep(m: Machine, position: U64, block: Block, remaining: U64): StepResult
  {
    var len := Min(remaining, BLOCK_SIZE);
    Ok((m.(state := MemberPayloadState(remaining - len)), Some(DataFrame(position, block, len, MemberData, None))))
  }

  /**
   * What one block at `position` does; `Ok` with no frame is an end-marker block.
   * Each branch starts from a failed machine and says how it recovers.
   */
  function Step(m: Machine, position: U64, block: Block): StepResult
  {
    var failed := m.(state := Failed);
    match m.state
    case AwaitingHeader =>
      if IsZeroBlock(block) then Ok((m.(state := AwaitingSecondZero), None)) else BoundaryStep(failed, position, block)
    case ReadingPax(kind, headerPosition, remaining, payload) =>
      PaxDataStep(failed, position, block, kind, headerPosition, remaining, payload)
    case AwaitingUstarHeader(records) => LocalMemberStep(failed, position, block, records)
    case ReadingGnu(kind, remaining, pending) => GnuDataStep(failed, position, block, kind, remaining, pending)
    case AwaitingGnuMember(pending) => GnuMemberStep(failed, position, block, pending)
    case ReadingMember(remaining) => MemberDataStep(failed, position, block, remaining)
    case AwaitingSecondZero =>
      if IsZeroBlock(block) then Ok((m.(state := Complete), None)) else Fail(position, InvalidEndMarker)
    case Complete => Ok((m, None))
    case Failed => Ok((m, None))
  }

  /** The error for an end of input between blocks. */
  function EofFault(state: State): Fault
  {
    match state
    case AwaitingHeader => MissingEndMarker
    case AwaitingSecondZero => MissingEndMarker
    case ReadingPax(kind, _, remaining, _) => TruncatedPayload(PaxData(kind), remaining)
    case ReadingGnu(kind, remaining, _) => TruncatedPayload(GnuData(kind), remaining)
    case ReadingMember(remaining) => TruncatedPayload(MemberData, remaining)
    case _ => UnexpectedEof
  }

  /** The outcome of reading up to the next frame: the frame with what is left, a clean end, or an error. */
  datatype Scan =
    | ScanFrame(machine: Machine, frame: Frame, next: U64, rest: seq<Byte>)
    | ScanEnd(machine: Machine)
    | ScanFail(error: FrameError)

  function EndRank(state: State): nat
  {
    match state
    case Complete => 0
    case Failed => 0
    case AwaitingSecondZero => 1
    case _ => 2
  }

  /** The next frame of an input given all at once. */
  function NextFrame(m: Machine, position: U64, bytes: seq<Byte>): Scan
    decreases EndRank(m.state)
  {
    if m.state.Complete? || m.state.Failed? then ScanEnd(m)
    else if bytes == [] then ScanFail(FrameError(position, EofFault(m.state)))
    else if |bytes| < BLOCK_SIZE then ScanFail(FrameError(position, IncompleteBlock(|bytes|)))
    else if position + BLOCK_SIZE >= U64_LIMIT then ScanFail(FrameError(position, Overflow))
    else
      match Step(m, position, bytes[..BLOCK_SIZE])
      case Err(e) => ScanFail(e)
      case Ok((m', Some(frame))) => ScanFrame(m', frame, position + BLOCK_SIZE, bytes[BLOCK_SIZE..])
      case Ok((m', None)) => NextFrame(m', position + BLOCK_SIZE, bytes[BLOCK_SIZE..])
  }

  predicate Finished(m: Machine) { m.state.Complete? || m.state.Failed? }

  lemma ScanOneBlock(m: Machine, position: U64, block: Block, rest: seq<Byte>)
    requires !Finished(m) && position + BLOCK_SIZE < U64_LIMIT
    ensures NextFrame(m, position, block + rest) ==
            match Step(m, position, block)
            case Err(e) => ScanFail(e)
            case Ok((m', Some(frame))) => ScanFrame(m', frame, position + BLOCK_SIZE, rest)
            case Ok((m', None)) => NextFrame(m', position + BLOCK_SIZE, rest)
  {
    hide Step;
    assert (block + rest)[..BLOCK_SIZE] == block && (block + rest)[BLOCK_SIZE..] == rest;
  }

  /** The error for an input that ends, or runs out of offsets, before the next whole block. */
  function StopFault(m: Machine, bytes: seq<Byte>): Fault
  {
    if bytes == [] then EofFault(m.state) else if |bytes| < BLOCK_SIZE then IncompleteBlock(|bytes|) else Overflow
  }

  lemma ScanStops(m: Machine, position: U64, bytes: seq<Byte>)
    requires !Finished(m) && (|bytes| < BLOCK_SIZE || position + BLOCK_SIZE >= U64_LIMIT)
    ensures NextFrame(m, position, bytes) == ScanFail(FrameError(position, StopFault(m, bytes)))
  {
  }

  /** What is wrong with an input that ends, or runs out of offsets, where a block should be. */
  predicate CutShort(state: State, left: nat, fault: Fault)
  {
    if left >= BLOCK_SIZE then fault == Overflow
    else if left > 0 then fault == IncompleteBlock(left)
    else
      && (fault == MissingEndMarker <==> state.AwaitingHeader? || state.AwaitingSecondZero?)
      && (state.ReadingMember? ==> fault == TruncatedPayload(MemberData, state.remaining))
      && (state.ReadingPax? ==> fault == TruncatedPayload(PaxData(state.paxKind), state.paxRemaining))
      && (state.ReadingGnu? ==> fault == TruncatedPayload(GnuData(state.gnuKind), state.gnuRemaining))
      && (fault == UnexpectedEof <==> state.AwaitingUstarHeader? || state.AwaitingGnuMember?)
  }

  /** The first error of an input cut short says what was being read, and how much of it is missing. */
  lemma ShortInputFails(m: Machine, position: U64, bytes: seq<Byte>)
    requires !Finished(m) && (|bytes| < BLOCK_SIZE || position + BLOCK_SIZE >= U64_LIMIT)
    ensures var scan := NextFrame(m, position, bytes);
            scan.ScanFail? && scan.error.position == position && CutShort(m.state, |bytes|, scan.error.fault)
  {
    ScanStops(m, position, bytes);
  }

  /** A step's frame carries the block and the position it was given; only end-marker blocks yield none. */
  lemma StepKeepsBlock(m: Machine, position: U64, block: Block)
    requires Step(m, position, block).Ok?
    ensures var (m', frame) := Step(m, position, block).value;
            && (frame.Some? ==> FrameBlock(frame.value) == block && FramePosition(frame.value) == position && EndRank(m'.state) == 2)
            && (frame.None? && m.state.AwaitingHeader? ==> IsZeroBlock(block) && m'.state.AwaitingSecondZero?)
            && (m.state.AwaitingSecondZero? ==> IsZeroBlock(block))
            && (frame.None? ==> m.state.AwaitingHeader? || EndRank(m.state) < 2)
            && (frame.None? ==> EndRank(m'.state) <= 1 && (EndRank(m.state) > 0 ==> EndRank(m'.state) < EndRank(m.state)))
            && (m.state.AwaitingSecondZero? ==> frame.None? && m'.state.Complete?)
            && (frame.None? ==> m' == m.(state := m'.state) && (m'.state.Failed? ==> m.state.Failed?))
            && (m'.state.ReadingMember? ==> 0 < m'.state.remaining)
  {
    hide ParseHeader, ParsePayload, GlobalCharset, UstarHeader, GnuHeader, EffectiveRecord;
    HeadersKeepBlock(position, block);
  }

  /** A member header carries the block it was read from. */
  lemma HeadersKeepBlock(position: U64, block: Block)
    ensures forall parsed, size, allowNul :: UstarHeader(position, block, parsed, size, allowNul).Ok? ==>
              var h := UstarHeader(position, block, parsed, size, allowNul).value; h.block == block && h.position == position
    ensures forall parsed, link, allowNul :: GnuHeader(position, block, parsed, link, allowNul).Ok? ==>
              var h := GnuHeader(position, block, parsed, link, allowNul).value; h.block == block && h.position == position
  {
    hide NumericFields, EffectiveSize, KindOf;
  }

  /** Once an end-marker block has been read, no further frame can come. */
  lemma {:induction false} NoFrameInEndMarker(m: Machine, position: U64, bytes: seq<Byte>)
    requires EndRank(m.state) <= 1
    ensures !NextFrame(m, position, bytes).ScanFrame?
    decreases EndRank(m.state)
  {
    hide Step;
    if m.state.AwaitingSecondZero? && |bytes| >= BLOCK_SIZE && position + BLOCK_SIZE < U64_LIMIT {
      if Step(m, position, bytes[..BLOCK_SIZE]).Ok? {
        StepKeepsBlock(m, position, bytes[..BLOCK_SIZE]);
        NoFrameInEndMarker(Step(m, position, bytes[..BLOCK_SIZE]).value.0, position + BLOCK_SIZE, bytes[BLOCK_SIZE..]);
      }
    }
  }

  /** Every frame is one whole block of the input, at the position where it was read. */
  lemma FramesAreLossless(m: Machine, position: U64, bytes: seq<Byte>)
    requires NextFrame(m, position, bytes).ScanFrame?
    ensures var scan := NextFrame(m, position, bytes);
            && bytes == FrameBlock(scan.frame) + scan.rest
            && FramePosition(scan.frame) == position && scan.next == position + BLOCK_SIZE
  {
    hide Step;
    var block := bytes[..BLOCK_SIZE];
    StepKeepsBlock(m, position, block);
    var (m', frame) := Step(m, position, block).value;
    if frame.Some? {
      assert bytes == block + bytes[BLOCK_SIZE..];
    } else {
      NoFrameInEndMarker(m', position + BLOCK_SIZE, bytes[BLOCK_SIZE..]);
    }
  }

  /** A member header leaves the machine at its payload; only payload states yield data. */
  lemma StepOwnership(m: Machine, position: U64, block: Block)
    requires Step(m, position, block).Ok? && Step(m, position, block).value.1.Some?
    ensures var (m', frame) := Step(m, position, block).value;
            && (frame.value.HeaderFrame? ==> m'.state == MemberPayloadState(frame.value.header.effectiveSize) && m'.globals == m.globals)
            && (frame.value.DataFrame? && frame.value.owner == MemberData ==> m.state.ReadingMember?)
            && (m.state.ReadingMember? ==> frame.value.DataFrame?)
            && (!m.state.ReadingMember? && !frame.value.HeaderFrame? ==> !m'.state.ReadingMember?)
  {
    hide ParseHeader, NumericFields, EffectiveSize, ParsePayload, GlobalCharset, KindOf;
  }
}
