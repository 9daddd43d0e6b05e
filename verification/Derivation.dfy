/**
 * The tar format as a language of frames, without any machine: an archive is a list of members and global headers,
 * each a header block and its payload. The block machine accepts exactly this language.
 */
module Derivation {
  import opened Octets
  import opened Numbers
  import opened Header
  import opened PaxRecords
  import opened Pax
  import opened Framing
  import opened Grammar

  // ------------------------------------------------------------ the language

  /** A header frame and the data frames of its payload. */
  datatype Part = Part(header: Frame, data: seq<Frame>)

  /** What an archive is made of. Extensions stand in front of the one member they describe. */
  datatype Group =
    | GlobalGroup(extension: Part)
    | PaxGroup(local: Option<Part>, member: Part)
    | GnuGroup(names: seq<Part>, member: Part)

  function PartFrames(p: Part): seq<Frame> { [p.header] + p.data }

  function PartsFrames(parts: seq<Part>): seq<Frame>
  {
    if parts == [] then [] else PartFrames(parts[0]) + PartsFrames(parts[1..])
  }

  function GroupFrames(g: Group): seq<Frame>
  {
    match g
    case GlobalGroup(extension) => PartFrames(extension)
    case PaxGroup(None, member) => PartFrames(member)
    case PaxGroup(Some(local), member) => PartFrames(local) + PartFrames(member)
    case GnuGroup(names, member) => PartsFrames(names) + PartFrames(member)
  }

  function Frames(groups: seq<Group>): seq<Frame>
  {
    if groups == [] then [] else GroupFrames(groups[0]) + Frames(groups[1..])
  }

  /** Full blocks, then the rest; the last frame alone carries what the payload completes. */
  predicate CarriesData(p: Part, size: nat, owner: DataOwner, completed: Option<seq<PaxRecord>>)
  {
    && |p.data| == BlocksFor(size)
    && forall i :: 0 <= i < |p.data| ==> IsData(p.data[i], Min(size - BLOCK_SIZE * i, BLOCK_SIZE), owner,
                                                if i == |p.data| - 1 then completed else None)
  }

  predicate IsData(f: Frame, len: int, owner: DataOwner, completed: Option<seq<PaxRecord>>)
  {
    f.DataFrame? && f.len == len && f.owner == owner && f.completed == completed
  }

  /** The payload of a part, without its padding. */
  function PayloadOf(p: Part, size: nat): seq<Byte>
    requires |p.data| == BlocksFor(size)
  {
    BlocksOf(p.data)[..size]
  }

  /** The header block reads as a header of this family, type and declared size. */
  predicate ReadsAs(f: Frame, format: ArchiveFormat, typeflag: Byte, size: U64)
  {
    ParseHeader(FramePosition(f), FrameBlock(f)) == Ok(ParsedHeader(format, typeflag, size))
  }

  /** A pax extended header of a permitted size, whose payload reads as `records` under the inherited charset. */
  predicate PaxExtensionPart(policy: StreamPolicy, globals: seq<PaxRecord>, p: Part, kind: PaxKind, records: seq<PaxRecord>)
  {
    && p.header.PaxFrame? && p.header.paxKind == kind && 0 < p.header.payloadSize <= policy.maxPaxExtensionSize
    && ReadsAs(p.header, PaxFormat, if kind == Local then TYPE_PAX_LOCAL else TYPE_PAX_GLOBAL, p.header.payloadSize)
    && CarriesData(p, p.header.payloadSize, PaxData(kind), Some(records))
    && ParsePayload(PayloadOf(p, p.header.payloadSize), GlobalCharset(globals)) == Ok(records)
  }

  /** An ordinary pax header with the size that its own records, else the global ones, else the block itself give. */
  predicate PaxMemberPart(policy: StreamPolicy, globals: seq<PaxRecord>, local: Option<seq<PaxRecord>>, p: Part)
  {
    && p.header.HeaderFrame?
    && var h := p.header.header;
    && (exists typeflag, size ::
          && ReadsAs(p.header, PaxFormat, typeflag, size) && !IsPaxExtension(typeflag)
          && UstarHeader(h.position, h.block, ParsedHeader(PaxFormat, typeflag, size),
                         EffectiveRecord(local, globals, SizeKey), policy.allowAllNulNumericFields) == Ok(h))
    && CarriesData(p, h.effectiveSize, MemberData, None)
  }

  /** A long-name or long-link header of a permitted size. */
  predicate GnuNamePart(policy: StreamPolicy, p: Part)
  {
    && p.header.GnuFrame? && p.header.payloadSize <= policy.maxGnuExtensionSize
    && ReadsAs(p.header, GnuFormat, if p.header.gnuKind == LongName then TYPE_GNU_LONG_NAME else TYPE_GNU_LONG_LINK,
               p.header.payloadSize)
    && CarriesData(p, p.header.payloadSize, GnuData(p.header.gnuKind), None)
  }

  /** An ordinary GNU header; behind a long link it must be a link. */
  predicate GnuMemberPart(policy: StreamPolicy, behindLongLink: bool, p: Part)
  {
    && p.header.HeaderFrame?
    && var h := p.header.header;
    && (exists typeflag, size ::
          && ReadsAs(p.header, GnuFormat, typeflag, size) && GnuExtensionOf(typeflag).None?
          && GnuHeader(h.position, h.block, ParsedHeader(GnuFormat, typeflag, size), behindLongLink,
                       policy.allowAllNulNumericFields) == Ok(h))
    && CarriesData(p, h.effectiveSize, MemberData, None)
  }

  function KindsOf(names: seq<Part>): set<GnuKind>
  {
    set i | 0 <= i < |names| && names[i].header.GnuFrame? :: names[i].header.gnuKind
  }

  /** Name extensions of different kinds in any order. */
  predicate GnuNames(policy: StreamPolicy, names: seq<Part>)
  {
    && (forall i :: 0 <= i < |names| ==> GnuNamePart(policy, names[i]))
    && (forall i, j :: 0 <= i < j < |names| ==> names[i].header.gnuKind != names[j].header.gnuKind)
  }

  /** The records a pax extended header completes. */
  function RecordsOf(p: Part): seq<PaxRecord>
  {
    if p.data != [] && p.data[|p.data| - 1].DataFrame? && p.data[|p.data| - 1].completed.Some?
    then p.data[|p.data| - 1].completed.value
    else []
  }

  /** One group of the family, behind global headers that left `globals` and took up `total` bytes. */
  predicate WellFormedGroup(policy: StreamPolicy, family: ArchiveFormat, globals: seq<PaxRecord>, total: nat, g: Group)
  {
    match g
    case GlobalGroup(extension) =>
      && family == PaxFormat && PaxExtensionPart(policy, globals, extension, Global, RecordsOf(extension))
      && total + extension.header.payloadSize <= policy.maxGlobalPaxExtensionsSize
    case PaxGroup(None, member) => family == PaxFormat && PaxMemberPart(policy, globals, None, member)
    case PaxGroup(Some(local), member) =>
      && family == PaxFormat && PaxExtensionPart(policy, globals, local, Local, RecordsOf(local))
      && PaxMemberPart(policy, globals, Some(RecordsOf(local)), member)
    case GnuGroup(names, member) =>
      family == GnuFormat && GnuNames(policy, names) && GnuMemberPart(policy, LongLink in KindsOf(names), member)
  }

  function GlobalsAfter(globals: seq<PaxRecord>, g: Group): seq<PaxRecord>
  {
    if g.GlobalGroup? then globals + RecordsOf(g.extension) else globals
  }

  function TotalAfter(total: nat, g: Group): nat
  {
    if g.GlobalGroup? && g.extension.header.PaxFrame? then total + g.extension.header.payloadSize else total
  }

  /** Groups of one family, each read with the global records of those before it. */
  predicate WellFormed(policy: StreamPolicy, family: ArchiveFormat, globals: seq<PaxRecord>, total: nat, groups: seq<Group>)
    decreases |groups|
  {
    hide WellFormedGroup;
    groups == []
    || (&& WellFormedGroup(policy, family, globals, total, groups[0])
        && WellFormed(policy, family, GlobalsAfter(globals, groups[0]), TotalAfter(total, groups[0]), groups[1..]))
  }

  /** The frames' blocks are the front of the input, each at its own position. */
  predicate Standing(frames: seq<Frame>, position: nat, bytes: seq<Byte>)
  {
    && BLOCK_SIZE * |frames| <= |bytes| && position + BLOCK_SIZE * |frames| < U64_LIMIT
    && forall i :: 0 <= i < |frames| ==> StandsAt(frames[i], i, position, bytes)
  }

  predicate StandsAt(f: Frame, i: nat, position: nat, bytes: seq<Byte>)
    requires BLOCK_SIZE * i + BLOCK_SIZE <= |bytes|
  {
    && FramePosition(f) == position + BLOCK_SIZE * i
    && FrameBlock(f) == bytes[BLOCK_SIZE * i..BLOCK_SIZE * i + BLOCK_SIZE]
  }

  /** Two zero blocks. */
  predicate EndMarked(position: nat, bytes: seq<Byte>)
  {
    2 * BLOCK_SIZE <= |bytes| && position + 2 * BLOCK_SIZE < U64_LIMIT && AllNul(bytes[..2 * BLOCK_SIZE])
  }

  /** The input is the frames, then the end marker; what follows does not matter. */
  predicate Laid(frames: seq<Frame>, position: nat, bytes: seq<Byte>)
  {
    Standing(frames, position, bytes) && EndMarked(position + BLOCK_SIZE * |frames|, bytes[BLOCK_SIZE * |frames|..])
  }

  // ------------------------------------------------------------------ layout

  lemma StandingConcat(a: seq<Frame>, b: seq<Frame>, position: nat, bytes: seq<Byte>)
    ensures Standing(a + b, position, bytes) <==>
            Standing(a, position, bytes)
            && Standing(b, position + BLOCK_SIZE * |a|, bytes[BLOCK_SIZE * |a|..])
  {
    hide StandsAt;
    if BLOCK_SIZE * |a + b| <= |bytes| {
      var rest := bytes[BLOCK_SIZE * |a|..];
      forall i | 0 <= i < |b| ensures StandsAt(b[i], i, position + BLOCK_SIZE * |a|, rest) <==> StandsAt((a + b)[|a| + i], |a| + i, position, bytes) {
        StandsShifted(b[i], |a|, i, position, bytes);
      }
      assert forall i :: 0 <= i < |a| ==> (a + b)[i] == a[i];
      if Standing(a + b, position, bytes) {
        forall i | 0 <= i < |b| ensures StandsAt(b[i], i, position + BLOCK_SIZE * |a|, rest) {
          assert StandsAt((a + b)[|a| + i], |a| + i, position, bytes);
        }
      } else if Standing(a, position, bytes) && Standing(b, position + BLOCK_SIZE * |a|, rest) {
        forall i | 0 <= i < |a + b| ensures StandsAt((a + b)[i], i, position, bytes) {
          if i >= |a| { assert StandsAt(b[i - |a|], i - |a|, position + BLOCK_SIZE * |a|, rest); }
        }
      }
    }
  }

  lemma StandsShifted(f: Frame, n: nat, i: nat, position: nat, bytes: seq<Byte>)
    requires BLOCK_SIZE * (n + i) + BLOCK_SIZE <= |bytes|
    ensures StandsAt(f, i, position + BLOCK_SIZE * n, bytes[BLOCK_SIZE * n..]) <==> StandsAt(f, n + i, position, bytes)
  {
    var rest := bytes[BLOCK_SIZE * n..];
    assert rest[BLOCK_SIZE * i..BLOCK_SIZE * i + BLOCK_SIZE] == bytes[BLOCK_SIZE * (n + i)..BLOCK_SIZE * (n + i) + BLOCK_SIZE];
  }

  /** The data frames of a payload, one by one. */
  lemma {:induction false} PayloadFrameAt(
      position: U64, bytes: seq<Byte>, n: nat, owner: DataOwner, completed: Option<seq<PaxRecord>>, i: nat)
    requires Fits(position, bytes, Padded(n)) && i < BlocksFor(n)
    ensures BLOCK_SIZE * i + BLOCK_SIZE <= |bytes|
    ensures PayloadFrames(position, bytes, n, owner, completed)[i] ==
            DataFrame(position + BLOCK_SIZE * i, bytes[BLOCK_SIZE * i..BLOCK_SIZE * i + BLOCK_SIZE], Min(n - BLOCK_SIZE * i, BLOCK_SIZE),
                      owner, if i == BlocksFor(n) - 1 then completed else None)
    decreases n
  {
    if n > BLOCK_SIZE && i > 0 {
      var rest := bytes[BLOCK_SIZE..];
      PayloadFrameAt(position + BLOCK_SIZE, rest, n - BLOCK_SIZE, owner, completed, i - 1);
      assert rest[BLOCK_SIZE * (i - 1)..BLOCK_SIZE * (i - 1) + BLOCK_SIZE] == bytes[BLOCK_SIZE * i..BLOCK_SIZE * i + BLOCK_SIZE];
    }
  }

  /** The payload at a place in the input is carried by exactly one list of frames standing there. */
  lemma DataStanding(p: Part, size: nat, owner: DataOwner, completed: Option<seq<PaxRecord>>, position: U64, bytes: seq<Byte>)
    requires Fits(position, bytes, Padded(size))
    ensures CarriesData(p, size, owner, completed) && Standing(p.data, position, bytes) <==>
            p.data == PayloadFrames(position, bytes, size, owner, completed)
  {
    var fs := PayloadFrames(position, bytes, size, owner, completed);
    hide PayloadFrames;
    forall i | 0 <= i < BlocksFor(size)
      ensures BLOCK_SIZE * i + BLOCK_SIZE <= |bytes| && StandsAt(fs[i], i, position, bytes)
      ensures IsData(fs[i], Min(size - BLOCK_SIZE * i, BLOCK_SIZE), owner, if i == BlocksFor(size) - 1 then completed else None)
    {
      PayloadFrameAt(position, bytes, size, owner, completed, i);
    }
    if CarriesData(p, size, owner, completed) && Standing(p.data, position, bytes) {
      forall i | 0 <= i < |fs| ensures p.data[i] == fs[i] {
        assert StandsAt(p.data[i], i, position, bytes);
      }
    }
  }

  /** A part that stands at the front of the input: its header block, its data frames and its payload's bytes. */
  lemma PartStanding(p: Part, size: nat, owner: DataOwner, completed: Option<seq<PaxRecord>>, position: U64, bytes: seq<Byte>)
    requires CarriesData(p, size, owner, completed) && Standing(PartFrames(p), position, bytes)
    ensures |PartFrames(p)| == 1 + BlocksFor(size)
    ensures Fits(position, bytes, BLOCK_SIZE + Padded(size))
    ensures FramePosition(p.header) == position && FrameBlock(p.header) == bytes[..BLOCK_SIZE]
    ensures p.data == PayloadFrames(position + BLOCK_SIZE, bytes[BLOCK_SIZE..], size, owner, completed)
    ensures PayloadOf(p, size) == bytes[BLOCK_SIZE..BLOCK_SIZE + size]
  {
    hide PayloadFrames, CarriesData, BlocksOf;
    var rest := bytes[BLOCK_SIZE..];
    assert |p.data| == BlocksFor(size) by { CarriedLength(p, size, owner, completed); }
    StandingConcat([p.header], p.data, position, bytes);
    assert StandsAt([p.header][0], 0, position, bytes);
    assert bytes[0..BLOCK_SIZE] == bytes[..BLOCK_SIZE];
    DataStanding(p, size, owner, completed, position + BLOCK_SIZE, rest);
    PayloadFramesMeasure(position + BLOCK_SIZE, rest, size, owner, completed);
    assert rest[..Padded(size)][..size] == bytes[BLOCK_SIZE..BLOCK_SIZE + size];
  }

  lemma CarriedLength(p: Part, size: nat, owner: DataOwner, completed: Option<seq<PaxRecord>>)
    requires CarriesData(p, size, owner, completed)
    ensures |p.data| == BlocksFor(size)
  {
  }

  /** A header block and its payload make a part that stands where they are. */
  lemma PartMade(header: Frame, size: nat, owner: DataOwner, completed: Option<seq<PaxRecord>>, position: U64, bytes: seq<Byte>)
    returns (p: Part)
    requires Fits(position, bytes, BLOCK_SIZE + Padded(size))
    requires FramePosition(header) == position && FrameBlock(header) == bytes[..BLOCK_SIZE]
    ensures p == Part(header, PayloadFrames(position + BLOCK_SIZE, bytes[BLOCK_SIZE..], size, owner, completed))
    ensures CarriesData(p, size, owner, completed) && Standing(PartFrames(p), position, bytes)
    ensures |PartFrames(p)| == 1 + BlocksFor(size)
    ensures PayloadOf(p, size) == bytes[BLOCK_SIZE..BLOCK_SIZE + size]
  {
    hide PayloadFrames, BlocksOf;
    var rest := bytes[BLOCK_SIZE..];
    p := Part(header, PayloadFrames(position + BLOCK_SIZE, rest, size, owner, completed));
    DataStanding(p, size, owner, completed, position + BLOCK_SIZE, rest);
    assert bytes[0..BLOCK_SIZE] == bytes[..BLOCK_SIZE];
    assert StandsAt([header][0], 0, position, bytes);
    StandingConcat([header], p.data, position, bytes);
    PayloadFramesMeasure(position + BLOCK_SIZE, rest, size, owner, completed);
    assert rest[..Padded(size)][..size] == bytes[BLOCK_SIZE..BLOCK_SIZE + size];
  }

  // ---------------------------------------------------- the language is accepted

  /** The machine at a member boundary, in the family and behind these global headers. */
  function Boundary(m: Machine, family: ArchiveFormat, globals: seq<PaxRecord>, total: U64): Machine
  {
    m.(state := AwaitingHeader, format := Some(family), globals := globals, globalSize := total)
  }

  function Beyond(m: Machine, position: nat, bytes: seq<Byte>, frames: seq<Frame>): Option<seq<Frame>>
    requires BLOCK_SIZE * |frames| <= |bytes| && position + BLOCK_SIZE * |frames| < U64_LIMIT
  {
    Archive(m, position + BLOCK_SIZE * |frames|, bytes[BLOCK_SIZE * |frames|..])
  }

  lemma HeaderIsNotZero(position: U64, block: Block)
    requires ParseHeader(position, block).Ok?
    ensures !IsZeroBlock(block)
  {
    var identity := block[LINK_NAME_END..IDENTITY_END];
    assert identity[0] == block[LINK_NAME_END];
  }

  /** A header of the machine's family passes its check. */
  lemma HeaderChecks(m: Machine, position: U64, block: Block, parsed: ParsedHeader)
    requires ParseHeader(position, block) == Ok(parsed) && (m.format.Some? ==> m.format == Some(parsed.format))
    ensures CheckedHeader(m, position, block) == Ok((m.(format := Some(parsed.format)), parsed))
    ensures !IsZeroBlock(block)
  {
    HeaderIsNotZero(position, block);
  }

  lemma MemberAccepted(m: Machine, position: U64, bytes: seq<Byte>, header: StepResult, p: Part)
    requires p.header.HeaderFrame? && CarriesData(p, p.header.header.effectiveSize, MemberData, None)
    requires Standing(PartFrames(p), position, bytes)
    requires header.Ok? && header.value.1 == Some(p.header)
    ensures Fits(position, bytes, BLOCK_SIZE) && BLOCK_SIZE * |PartFrames(p)| <= |bytes|
    ensures Member(m, position, bytes, header) ==
            After(PartFrames(p), Beyond(AtBoundary(header.value.0), position, bytes, PartFrames(p)))
  {
    hide Archive, CarriesData, PayloadFrames, Standing;
    PartStanding(p, p.header.header.effectiveSize, MemberData, None, position, bytes);
  }

  /** A pax member's header, behind its local records if it has any. */
  lemma PaxMemberAccepted(m: Machine, position: U64, bytes: seq<Byte>, local: Option<seq<PaxRecord>>, p: Part)
    requires m.state.Failed? && m.format == Some(PaxFormat) && PaxMemberPart(m.policy, m.globals, local, p)
    requires Standing(PartFrames(p), position, bytes)
    ensures Fits(position, bytes, BLOCK_SIZE)
    ensures var beyond := After(PartFrames(p), Beyond(m.(state := AwaitingHeader), position, bytes, PartFrames(p)));
            if local.Some? then LocalMember(m, position, bytes, local.value) == beyond
            else exists parsed ::
              && ParseHeader(position, bytes[..BLOCK_SIZE]) == Ok(parsed) && parsed.format == PaxFormat && !IsPaxExtension(parsed.typeflag)
              && Member(m, position, bytes, UstarHeaderStep(m, position, bytes[..BLOCK_SIZE], parsed, None)) == beyond
  {
    hide Member, Archive, CarriesData, ParseHeader, UstarHeader, EffectiveRecord;
    var h := p.header.header;
    PartStanding(p, h.effectiveSize, MemberData, None, position, bytes);
    var typeflag, size :|
      && ReadsAs(p.header, PaxFormat, typeflag, size) && !IsPaxExtension(typeflag)
      && UstarHeader(h.position, h.block, ParsedHeader(PaxFormat, typeflag, size),
                     EffectiveRecord(local, m.globals, SizeKey), m.policy.allowAllNulNumericFields) == Ok(h);
    var parsed := ParsedHeader(PaxFormat, typeflag, size);
    var block := bytes[..BLOCK_SIZE];
    HeaderChecks(m, position, block, parsed);
    var step := UstarHeaderStep(m, position, block, parsed, local);
    assert step == Ok((m.(state := MemberPayloadState(h.effectiveSize)), Some(p.header)));
    MemberAccepted(m, position, bytes, step, p);
  }

  /** A pax extended header: a global one goes on to the next group, a local one to its member. */
  lemma PaxExtensionAccepted(m: Machine, position: U64, bytes: seq<Byte>, p: Part, kind: PaxKind, records: seq<PaxRecord>)
    requires m.state.Failed? && m.format == Some(PaxFormat) && PaxExtensionPart(m.policy, m.globals, p, kind, records)
    requires kind == Global ==> m.globalSize + p.header.payloadSize <= m.policy.maxGlobalPaxExtensionsSize
    requires Standing(PartFrames(p), position, bytes)
    ensures Fits(position, bytes, BLOCK_SIZE) && BLOCK_SIZE * |PartFrames(p)| <= |bytes|
    ensures ParseHeader(position, bytes[..BLOCK_SIZE]) ==
            Ok(ParsedHeader(PaxFormat, if kind == Local then TYPE_PAX_LOCAL else TYPE_PAX_GLOBAL, p.header.payloadSize))
    ensures PaxExtension(m, position, bytes, p.header.payloadSize, kind) ==
            After(PartFrames(p),
                  if kind == Global then
                    Beyond(Boundary(m, PaxFormat, m.globals + records, m.globalSize + p.header.payloadSize), position, bytes, PartFrames(p))
                  else LocalMember(m, position + BLOCK_SIZE * |PartFrames(p)|, bytes[BLOCK_SIZE * |PartFrames(p)|..], records))
  {
    hide Archive, LocalMember, CarriesData, ParseHeader, ParsePayload, GlobalCharset, PayloadFrames, Standing;
    PartStanding(p, p.header.payloadSize, PaxData(kind), Some(records), position, bytes);
  }

  /** The name extensions that may still come before a GNU member, when `pending` have been seen. */
  predicate NamesLeft(policy: StreamPolicy, pending: PendingGnu, names: seq<Part>)
  {
    GnuNames(policy, names) && forall i :: 0 <= i < |names| ==> !Seen(pending, names[i].header.gnuKind)
  }

  predicate LinkNamed(pending: PendingGnu, names: seq<Part>) { pending.longLink || LongLink in KindsOf(names) }

  lemma FirstName(policy: StreamPolicy, pending: PendingGnu, names: seq<Part>)
    requires names != []
    ensures NamesLeft(policy, pending, names) <==>
            && GnuNamePart(policy, names[0]) && !Seen(pending, names[0].header.gnuKind)
            && NamesLeft(policy, MarkSeen(pending, names[0].header.gnuKind), names[1..])
    ensures GnuNamePart(policy, names[0]) ==>
              (LinkNamed(pending, names) <==> LinkNamed(MarkSeen(pending, names[0].header.gnuKind), names[1..]))
  {
    if GnuNamePart(policy, names[0]) {
      LinkNamedFirst(pending, names);
      hide GnuNamePart, LinkNamed;
      var rest := names[1..];
      assert forall i :: 0 < i < |names| ==> names[i] == rest[i - 1];
    }
  }

  lemma LinkNamedFirst(pending: PendingGnu, names: seq<Part>)
    requires names != [] && names[0].header.GnuFrame?
    ensures LinkNamed(pending, names) <==> LinkNamed(MarkSeen(pending, names[0].header.gnuKind), names[1..])
  {
    var rest := names[1..];
    assert forall i :: 0 < i < |names| ==> names[i] == rest[i - 1];
    assert KindsOf(names) == KindsOf(rest) + {names[0].header.gnuKind};
  }

  /** Name extensions in any order, each kind once, and the member behind them. */
  lemma {:induction false} GnuAccepted(
      m: Machine, position: U64, bytes: seq<Byte>, pending: PendingGnu, names: seq<Part>, member: Part)
    requires m.state.Failed? && m.format == Some(GnuFormat) && NamesLeft(m.policy, pending, names)
    requires GnuMemberPart(m.policy, LinkNamed(pending, names), member)
    requires Standing(PartsFrames(names) + PartFrames(member), position, bytes)
    ensures Fits(position, bytes, BLOCK_SIZE)
    ensures exists parsed ::
              && ParseHeader(position, bytes[..BLOCK_SIZE]) == Ok(parsed) && parsed.format == GnuFormat
              && Grammar.GnuGroup(m, position, bytes, parsed, pending) ==
                 After(PartsFrames(names) + PartFrames(member),
                       Beyond(m.(state := AwaitingHeader), position, bytes, PartsFrames(names) + PartFrames(member)))
    decreases |names|
  {
    hide Member, Archive, CarriesData, ParseHeader, GnuHeader, GnuMemberPart, NamesLeft, LinkNamed, Standing, Grammar.GnuGroup;
    if names == [] {
      assert PartsFrames(names) + PartFrames(member) == PartFrames(member);
      NoNames(pending);
      GnuMemberAccepted(m, position, bytes, pending, member);
    } else {
      var frames, rest := PartFrames(names[0]), PartsFrames(names[1..]) + PartFrames(member);
      var n := BLOCK_SIZE * |frames|;
      assert PartsFrames(names) + PartFrames(member) == frames + rest;
      FirstName(m.policy, pending, names);
      StandingConcat(frames, rest, position, bytes);
      StandingBound(frames, position, bytes);
      StandingBound(rest, position + n, bytes[n..]);
      var seen := MarkSeen(pending, names[0].header.gnuKind);
      GnuAccepted(m, position + n, bytes[n..], seen, names[1..], member);
      var more: ParsedHeader :|
        && ParseHeader(position + n, bytes[n..][..BLOCK_SIZE]) == Ok(more) && more.format == GnuFormat
        && Grammar.GnuGroup(m, position + n, bytes[n..], more, seen) ==
           After(rest, Beyond(m.(state := AwaitingHeader), position + n, bytes[n..], rest));
      GnuNameAccepted(m, position, bytes, pending, names[0], more);
      StandingBound(frames + rest, position, bytes);
      assert bytes[n..][BLOCK_SIZE * |rest|..] == bytes[BLOCK_SIZE * |frames + rest|..];
      AfterTwice(frames, rest, Beyond(m.(state := AwaitingHeader), position, bytes, frames + rest));
    }
  }

  lemma StandingBound(frames: seq<Frame>, position: nat, bytes: seq<Byte>)
    requires Standing(frames, position, bytes)
    ensures BLOCK_SIZE * |frames| <= |bytes| && position + BLOCK_SIZE * |frames| < U64_LIMIT
  {
  }

  lemma AfterTwice(a: seq<Frame>, b: seq<Frame>, more: Option<seq<Frame>>)
    ensures After(a, After(b, more)) == After(a + b, more)
  {
    if more.Some? { assert a + (b + more.value) == a + b + more.value; }
  }

  lemma NoNames(pending: PendingGnu)
    ensures LinkNamed(pending, []) == pending.longLink
  {
  }

  lemma GnuMemberAccepted(m: Machine, position: U64, bytes: seq<Byte>, pending: PendingGnu, p: Part)
    requires m.state.Failed? && m.format == Some(GnuFormat) && GnuMemberPart(m.policy, pending.longLink, p)
    requires Standing(PartFrames(p), position, bytes)
    ensures Fits(position, bytes, BLOCK_SIZE) && BLOCK_SIZE * |PartFrames(p)| <= |bytes|
    ensures position + BLOCK_SIZE * |PartFrames(p)| < U64_LIMIT
    ensures exists parsed ::
              && ParseHeader(position, bytes[..BLOCK_SIZE]) == Ok(parsed) && parsed.format == GnuFormat
              && Grammar.GnuGroup(m, position, bytes, parsed, pending) ==
                 After(PartFrames(p), Beyond(m.(state := AwaitingHeader), position, bytes, PartFrames(p)))
  {
    hide Member, Archive, CarriesData, ParseHeader, GnuHeader;
    var h := p.header.header;
    PartStanding(p, h.effectiveSize, MemberData, None, position, bytes);
    var typeflag, size :|
      && ReadsAs(p.header, GnuFormat, typeflag, size) && GnuExtensionOf(typeflag).None?
      && GnuHeader(h.position, h.block, ParsedHeader(GnuFormat, typeflag, size), pending.longLink,
                   m.policy.allowAllNulNumericFields) == Ok(h);
    var parsed := ParsedHeader(GnuFormat, typeflag, size);
    var step := GnuHeaderStep(m, position, bytes[..BLOCK_SIZE], parsed, pending);
    assert step == Ok((m.(state := MemberPayloadState(h.effectiveSize)), Some(p.header)));
    MemberAccepted(m, position, bytes, step, p);
    assert Grammar.GnuGroup(m, position, bytes, parsed, pending) == Member(m, position, bytes, step);
  }

  lemma GnuNameAccepted(m: Machine, position: U64, bytes: seq<Byte>, pending: PendingGnu, p: Part, more: ParsedHeader)
    requires m.state.Failed? && m.format == Some(GnuFormat) && GnuNamePart(m.policy, p) && !Seen(pending, p.header.gnuKind)
    requires Standing(PartFrames(p), position, bytes)
    requires BLOCK_SIZE * |PartFrames(p)| <= |bytes| && position + BLOCK_SIZE * |PartFrames(p)| < U64_LIMIT
    requires Fits(position + BLOCK_SIZE * |PartFrames(p)|, bytes[BLOCK_SIZE * |PartFrames(p)|..], BLOCK_SIZE)
    requires ParseHeader(position + BLOCK_SIZE * |PartFrames(p)|, bytes[BLOCK_SIZE * |PartFrames(p)|..][..BLOCK_SIZE]) == Ok(more)
    requires more.format == GnuFormat
    ensures Fits(position, bytes, BLOCK_SIZE)
    ensures exists parsed ::
              && ParseHeader(position, bytes[..BLOCK_SIZE]) == Ok(parsed) && parsed.format == GnuFormat
              && Grammar.GnuGroup(m, position, bytes, parsed, pending) ==
                 After(PartFrames(p),
                       Grammar.GnuGroup(m, position + BLOCK_SIZE * |PartFrames(p)|, bytes[BLOCK_SIZE * |PartFrames(p)|..], more,
                                        MarkSeen(pending, p.header.gnuKind)))
  {
    hide Member, Archive, CarriesData, ParseHeader, GnuHeader, PayloadFrames, Standing;
    PartStanding(p, p.header.payloadSize, GnuData(p.header.gnuKind), None, position, bytes);
    var n := BLOCK_SIZE * |PartFrames(p)|;
    var parsed := ParsedHeader(GnuFormat, if p.header.gnuKind == LongName then TYPE_GNU_LONG_NAME else TYPE_GNU_LONG_LINK, p.header.payloadSize);
    HeaderChecks(m, position + n, bytes[n..][..BLOCK_SIZE], more);
    assert ParseHeader(position, bytes[..BLOCK_SIZE]) == Ok(parsed);
    assert n == BLOCK_SIZE + Padded(p.header.payloadSize);
    var seen := MarkSeen(pending, p.header.gnuKind);
    assert GnuMember(m, position + n, bytes[n..], seen) == Grammar.GnuGroup(m, position + n, bytes[n..], more, seen);
    hide GnuMember;
    assert Grammar.GnuGroup(m, position, bytes, parsed, pending) == After(PartFrames(p), GnuMember(m, position + n, bytes[n..], seen));
  }

  /** What accepting one group comes to: its frames, and the archive behind them. */
  predicate GroupAccepted(m: Machine, family: ArchiveFormat, position: U64, bytes: seq<Byte>, g: Group)
  {
    var frames := GroupFrames(g);
    && BLOCK_SIZE * |frames| <= |bytes| && position + BLOCK_SIZE * |frames| < U64_LIMIT
    && TotalAfter(m.globalSize, g) < U64_LIMIT
    && Archive(m, position, bytes) ==
       After(frames, Beyond(Boundary(m, family, GlobalsAfter(m.globals, g), TotalAfter(m.globalSize, g)), position, bytes, frames))
  }

  predicate InFamily(m: Machine, family: ArchiveFormat) { m.format.Some? ==> m.format == Some(family) }

  /** At a boundary the first header's family and type decide what is read next. */
  lemma ArchiveDispatches(m: Machine, position: U64, bytes: seq<Byte>, parsed: ParsedHeader)
    requires Fits(position, bytes, BLOCK_SIZE) && ParseHeader(position, bytes[..BLOCK_SIZE]) == Ok(parsed)
    requires InFamily(m, parsed.format)
    ensures var m1 := m.(state := Failed, format := Some(parsed.format));
            Archive(m, position, bytes) ==
            if parsed.format == GnuFormat then Grammar.GnuGroup(m1, position, bytes, parsed, PendingGnu(false, false))
            else if parsed.typeflag == TYPE_PAX_LOCAL then PaxExtension(m1, position, bytes, parsed.size, Local)
            else if parsed.typeflag == TYPE_PAX_GLOBAL then PaxExtension(m1, position, bytes, parsed.size, Global)
            else Member(m1, position, bytes, UstarHeaderStep(m1, position, bytes[..BLOCK_SIZE], parsed, None))
  {
    hide ParseHeader, Grammar.GnuGroup, PaxExtension, Member, UstarHeaderStep;
    HeaderChecks(m.(state := Failed), position, bytes[..BLOCK_SIZE], parsed);
  }

  lemma GnuGroupAccepted(m: Machine, position: U64, bytes: seq<Byte>, g: Group)
    requires InFamily(m, GnuFormat) && g.GnuGroup? && WellFormedGroup(m.policy, GnuFormat, m.globals, m.globalSize, g)
    requires Standing(GroupFrames(g), position, bytes)
    ensures GroupAccepted(m, GnuFormat, position, bytes, g)
  {
    hide Archive, ParseHeader, GnuNames, GnuMemberPart, Grammar.GnuGroup, PartFrames, PartsFrames, PaxExtension, Member;
    var m1 := m.(state := Failed, format := Some(GnuFormat));
    assert NamesLeft(m1.policy, PendingGnu(false, false), g.names);
    StandingBound(GroupFrames(g), position, bytes);
    hide Standing;
    GnuAccepted(m1, position, bytes, PendingGnu(false, false), g.names, g.member);
    var parsed :|
      && ParseHeader(position, bytes[..BLOCK_SIZE]) == Ok(parsed) && parsed.format == GnuFormat
      && Grammar.GnuGroup(m1, position, bytes, parsed, PendingGnu(false, false)) ==
         After(GroupFrames(g), Beyond(m1.(state := AwaitingHeader), position, bytes, GroupFrames(g)));
    ArchiveDispatches(m, position, bytes, parsed);
    assert m1.(state := AwaitingHeader) == Boundary(m, GnuFormat, m.globals, m.globalSize);
  }

  lemma GlobalGroupAccepted(m: Machine, position: U64, bytes: seq<Byte>, g: Group)
    requires InFamily(m, PaxFormat) && g.GlobalGroup? && WellFormedGroup(m.policy, PaxFormat, m.globals, m.globalSize, g)
    requires Standing(GroupFrames(g), position, bytes)
    ensures GroupAccepted(m, PaxFormat, position, bytes, g)
  {
    hide Archive, ParseHeader, PartFrames, PaxExtension, PaxExtensionPart, RecordsOf, Beyond, After, Standing;
    var p := g.extension;
    var m1 := m.(state := Failed, format := Some(PaxFormat));
    StandingBound(PartFrames(p), position, bytes);
    ExtensionIsPax(m.policy, m.globals, p, Global, RecordsOf(p));
    PaxExtensionAccepted(m1, position, bytes, p, Global, RecordsOf(p));
    ArchiveDispatches(m, position, bytes, ParsedHeader(PaxFormat, TYPE_PAX_GLOBAL, p.header.payloadSize));
  }

  lemma ExtensionIsPax(policy: StreamPolicy, globals: seq<PaxRecord>, p: Part, kind: PaxKind, records: seq<PaxRecord>)
    requires PaxExtensionPart(policy, globals, p, kind, records)
    ensures p.header.PaxFrame?
  {
  }

  lemma PlainGroupAccepted(m: Machine, position: U64, bytes: seq<Byte>, g: Group)
    requires InFamily(m, PaxFormat) && g.PaxGroup? && g.local.None?
    requires WellFormedGroup(m.policy, PaxFormat, m.globals, m.globalSize, g)
    requires Standing(GroupFrames(g), position, bytes)
    ensures GroupAccepted(m, PaxFormat, position, bytes, g)
  {
    hide Archive, ParseHeader, Grammar.GnuGroup, PartFrames, PaxExtension, Member, PaxMemberPart, UstarHeaderStep;
    var m1 := m.(state := Failed, format := Some(PaxFormat));
    StandingBound(GroupFrames(g), position, bytes);
    hide Standing;
    PaxMemberAccepted(m1, position, bytes, None, g.member);
    var parsed :|
      && ParseHeader(position, bytes[..BLOCK_SIZE]) == Ok(parsed) && parsed.format == PaxFormat && !IsPaxExtension(parsed.typeflag)
      && Member(m1, position, bytes, UstarHeaderStep(m1, position, bytes[..BLOCK_SIZE], parsed, None)) ==
         After(PartFrames(g.member), Beyond(m1.(state := AwaitingHeader), position, bytes, PartFrames(g.member)));
    ArchiveDispatches(m, position, bytes, parsed);
    assert m1.(state := AwaitingHeader) == Boundary(m, PaxFormat, m.globals, m.globalSize);
  }

  lemma LocalGroupAccepted(m: Machine, position: U64, bytes: seq<Byte>, g: Group)
    requires InFamily(m, PaxFormat) && g.PaxGroup? && g.local.Some?
    requires WellFormedGroup(m.policy, PaxFormat, m.globals, m.globalSize, g)
    requires Standing(GroupFrames(g), position, bytes)
    ensures GroupAccepted(m, PaxFormat, position, bytes, g)
  {
    hide Archive, ParseHeader, PartFrames, PaxExtension, PaxExtensionPart, PaxMemberPart, RecordsOf, LocalMember, Beyond, After, Standing;
    var p, records := g.local.value, RecordsOf(g.local.value);
    var m1 := m.(state := Failed, format := Some(PaxFormat));
    var frames, rest := PartFrames(p), PartFrames(g.member);
    var n := BLOCK_SIZE * |frames|;
    StandingBound(frames + rest, position, bytes);
    StandingConcat(frames, rest, position, bytes);
    StandingBound(frames, position, bytes);
    StandingBound(rest, position + n, bytes[n..]);
    ExtensionIsPax(m.policy, m.globals, p, Local, records);
    PaxExtensionAccepted(m1, position, bytes, p, Local, records);
    PaxMemberAccepted(m1, position + n, bytes[n..], Some(records), g.member);
    ArchiveDispatches(m, position, bytes, ParsedHeader(PaxFormat, TYPE_PAX_LOCAL, p.header.payloadSize));
    BeyondTwice(m1.(state := AwaitingHeader), position, bytes, frames, rest);
    AfterTwice(frames, rest, Beyond(m1.(state := AwaitingHeader), position, bytes, frames + rest));
  }

  lemma BeyondTwice(m: Machine, position: nat, bytes: seq<Byte>, a: seq<Frame>, b: seq<Frame>)
    requires BLOCK_SIZE * |a + b| <= |bytes| && position + BLOCK_SIZE * |a + b| < U64_LIMIT
    ensures Beyond(m, position, bytes, a + b) == Beyond(m, position + BLOCK_SIZE * |a|, bytes[BLOCK_SIZE * |a|..], b)
  {
    hide Archive;
    assert bytes[BLOCK_SIZE * |a|..][BLOCK_SIZE * |b|..] == bytes[BLOCK_SIZE * |a + b|..];
  }

  lemma OneGroupAccepted(m: Machine, family: ArchiveFormat, position: U64, bytes: seq<Byte>, g: Group)
    requires InFamily(m, family) && WellFormedGroup(m.policy, family, m.globals, m.globalSize, g)
    requires Standing(GroupFrames(g), position, bytes)
    ensures GroupAccepted(m, family, position, bytes, g)
  {
    hide GroupAccepted, Standing, PaxExtensionPart, PaxMemberPart, GnuNames, GnuMemberPart;
    match g
    case GlobalGroup(_) => GlobalGroupAccepted(m, position, bytes, g);
    case GnuGroup(_, _) => GnuGroupAccepted(m, position, bytes, g);
    case PaxGroup(local, _) =>
      if local.None? { PlainGroupAccepted(m, position, bytes, g); } else { LocalGroupAccepted(m, position, bytes, g); }
  }

  /** Every input laid out from well-formed groups and the end marker is accepted, as those frames. */
  lemma {:induction false} LanguageAccepted(
      m: Machine, family: ArchiveFormat, position: U64, bytes: seq<Byte>, groups: seq<Group>)
    requires InFamily(m, family) && WellFormed(m.policy, family, m.globals, m.globalSize, groups)
    requires Laid(Frames(groups), position, bytes)
    ensures Archive(m, position, bytes) == Some(Frames(groups))
    decreases |groups|
  {
    hide WellFormedGroup, Archive, Standing, GroupFrames, EndMarked;
    if groups == [] {
      assert bytes[0..] == bytes;
      EndAccepted(m, position, bytes);
    } else {
      var g := groups[0];
      var frames, rest := GroupFrames(g), Frames(groups[1..]);
      var n := BLOCK_SIZE * |frames|;
      StandingConcat(frames, rest, position, bytes);
      StandingBound(frames, position, bytes);
      StandingBound(rest, position + n, bytes[n..]);
      assert bytes[n..][BLOCK_SIZE * |rest|..] == bytes[BLOCK_SIZE * |frames + rest|..];
      OneGroupAccepted(m, family, position, bytes, g);
      LanguageAccepted(Boundary(m, family, GlobalsAfter(m.globals, g), TotalAfter(m.globalSize, g)), family,
                       position + n, bytes[n..], groups[1..]);
    }
  }

  lemma EndAccepted(m: Machine, position: U64, bytes: seq<Byte>)
    requires EndMarked(position, bytes)
    ensures Archive(m, position, bytes) == Some([])
  {
    hide CheckedHeader, Grammar.GnuGroup, PaxExtension, Member;
    assert bytes[..2 * BLOCK_SIZE][..BLOCK_SIZE] == bytes[..BLOCK_SIZE];
    assert bytes[..2 * BLOCK_SIZE][BLOCK_SIZE..] == bytes[BLOCK_SIZE..2 * BLOCK_SIZE];
  }

  // ------------------------------------------------- what is accepted is derived

  /** An accepted member header and payload are a part at the front of the input. */
  lemma MemberDerived(m: Machine, position: U64, bytes: seq<Byte>, header: StepResult) returns (p: Part)
    requires Fits(position, bytes, BLOCK_SIZE) && Member(m, position, bytes, header).Some? && IsHeaderStep(header)
    requires header.Ok? ==> FramePosition(header.value.1.value) == position && FrameBlock(header.value.1.value) == bytes[..BLOCK_SIZE]
    ensures header.Ok? && header.value.1 == Some(p.header)
    ensures CarriesData(p, p.header.header.effectiveSize, MemberData, None) && Standing(PartFrames(p), position, bytes)
    ensures BLOCK_SIZE * |PartFrames(p)| <= |bytes| && position + BLOCK_SIZE * |PartFrames(p)| < U64_LIMIT
    ensures Member(m, position, bytes, header) ==
            After(PartFrames(p), Beyond(AtBoundary(header.value.0), position, bytes, PartFrames(p)))
  {
    hide Archive, PayloadFrames, CarriesData, Standing, PayloadOf;
    p := PartMade(header.value.1.value, header.value.1.value.header.effectiveSize, MemberData, None, position, bytes);
    StandingBound(PartFrames(p), position, bytes);
  }

  /** An accepted ordinary pax header satisfies the language's conditions on it. */
  lemma PaxMemberDerived(m: Machine, position: U64, bytes: seq<Byte>, parsed: ParsedHeader, local: Option<seq<PaxRecord>>)
    returns (p: Part)
    requires m.state.Failed? && m.format == Some(PaxFormat) && Fits(position, bytes, BLOCK_SIZE)
    requires ParseHeader(position, bytes[..BLOCK_SIZE]) == Ok(parsed) && parsed.format == PaxFormat && !IsPaxExtension(parsed.typeflag)
    requires Member(m, position, bytes, UstarHeaderStep(m, position, bytes[..BLOCK_SIZE], parsed, local)).Some?
    ensures PaxMemberPart(m.policy, m.globals, local, p) && Standing(PartFrames(p), position, bytes)
    ensures BLOCK_SIZE * |PartFrames(p)| <= |bytes| && position + BLOCK_SIZE * |PartFrames(p)| < U64_LIMIT
    ensures Member(m, position, bytes, UstarHeaderStep(m, position, bytes[..BLOCK_SIZE], parsed, local)) ==
            After(PartFrames(p), Beyond(m.(state := AwaitingHeader), position, bytes, PartFrames(p)))
  {
    hide Archive, CarriesData, Standing, UstarHeader, EffectiveRecord, ParseHeader, Member, Beyond;
    var block := bytes[..BLOCK_SIZE];
    HeadersKeepBlock(position, block);
    p := MemberDerived(m, position, bytes, UstarHeaderStep(m, position, block, parsed, local));
    assert ReadsAs(p.header, PaxFormat, parsed.typeflag, parsed.size);
  }

  lemma PaxExtensionDerived(m: Machine, position: U64, bytes: seq<Byte>, size: U64, kind: PaxKind) returns (p: Part)
    requires m.state.Failed? && m.format == Some(PaxFormat) && Fits(position, bytes, BLOCK_SIZE)
    requires ParseHeader(position, bytes[..BLOCK_SIZE]) ==
             Ok(ParsedHeader(PaxFormat, if kind == Local then TYPE_PAX_LOCAL else TYPE_PAX_GLOBAL, size))
    requires PaxExtension(m, position, bytes, size, kind).Some?
    ensures PaxExtensionPart(m.policy, m.globals, p, kind, RecordsOf(p)) && Standing(PartFrames(p), position, bytes)
    ensures kind == Global ==> m.globalSize + p.header.payloadSize <= m.policy.maxGlobalPaxExtensionsSize
    ensures BLOCK_SIZE * |PartFrames(p)| <= |bytes| && position + BLOCK_SIZE * |PartFrames(p)| < U64_LIMIT
    ensures PaxExtension(m, position, bytes, size, kind) ==
            After(PartFrames(p),
                  if kind == Global then
                    Beyond(Boundary(m, PaxFormat, m.globals + RecordsOf(p), m.globalSize + p.header.payloadSize), position, bytes, PartFrames(p))
                  else LocalMember(m, position + BLOCK_SIZE * |PartFrames(p)|, bytes[BLOCK_SIZE * |PartFrames(p)|..], RecordsOf(p)))
  {
    hide Archive, LocalMember, CarriesData, ParseHeader, ParsePayload, GlobalCharset, PayloadFrames, Standing, PayloadOf, RecordsOf;
    var header := PaxHeaderStep(m, position, bytes[..BLOCK_SIZE], size, kind).value.1.value;
    var records := ParsePayload(bytes[BLOCK_SIZE..BLOCK_SIZE + size], GlobalCharset(m.globals)).value;
    p := PartMade(header, size, PaxData(kind), Some(records), position, bytes);
    StandingBound(PartFrames(p), position, bytes);
    CompletedRecords(p, size, PaxData(kind), records);
  }

  lemma CompletedRecords(p: Part, size: nat, owner: DataOwner, records: seq<PaxRecord>)
    requires size > 0 && CarriesData(p, size, owner, Some(records))
    ensures RecordsOf(p) == records
  {
    assert IsData(p.data[|p.data| - 1], Min(size - BLOCK_SIZE * (|p.data| - 1), BLOCK_SIZE), owner, Some(records));
  }

  lemma GnuNameDerived(m: Machine, position: U64, bytes: seq<Byte>, parsed: ParsedHeader, pending: PendingGnu) returns (p: Part)
    requires m.state.Failed? && m.format == Some(GnuFormat) && Fits(position, bytes, BLOCK_SIZE)
    requires ParseHeader(position, bytes[..BLOCK_SIZE]) == Ok(parsed) && parsed.format == GnuFormat
    requires GnuExtensionOf(parsed.typeflag).Some? && Grammar.GnuGroup(m, position, bytes, parsed, pending).Some?
    ensures p.header.GnuFrame? && GnuNamePart(m.policy, p) && !Seen(pending, p.header.gnuKind) && Standing(PartFrames(p), position, bytes)
    ensures BLOCK_SIZE * |PartFrames(p)| <= |bytes| && position + BLOCK_SIZE * |PartFrames(p)| < U64_LIMIT
    ensures Grammar.GnuGroup(m, position, bytes, parsed, pending) ==
            After(PartFrames(p), GnuMember(m, position + BLOCK_SIZE * |PartFrames(p)|, bytes[BLOCK_SIZE * |PartFrames(p)|..],
                                           MarkSeen(pending, p.header.gnuKind)))
  {
    hide Archive, CarriesData, ParseHeader, PayloadFrames, Standing, GnuMember, PayloadOf, GnuHeader;
    var header := GnuHeaderStep(m, position, bytes[..BLOCK_SIZE], parsed, pending);
    var kind := GnuExtensionOf(parsed.typeflag).value;
    if header.Ok? {
      p := PartMade(header.value.1.value, parsed.size, GnuData(kind), None, position, bytes);
      StandingBound(PartFrames(p), position, bytes);
    }
  }

  lemma GnuMemberDerived(m: Machine, position: U64, bytes: seq<Byte>, parsed: ParsedHeader, pending: PendingGnu) returns (p: Part)
    requires m.state.Failed? && m.format == Some(GnuFormat) && Fits(position, bytes, BLOCK_SIZE)
    requires ParseHeader(position, bytes[..BLOCK_SIZE]) == Ok(parsed) && parsed.format == GnuFormat
    requires GnuExtensionOf(parsed.typeflag).None? && Grammar.GnuGroup(m, position, bytes, parsed, pending).Some?
    ensures GnuMemberPart(m.policy, pending.longLink, p) && Standing(PartFrames(p), position, bytes)
    ensures BLOCK_SIZE * |PartFrames(p)| <= |bytes| && position + BLOCK_SIZE * |PartFrames(p)| < U64_LIMIT
    ensures Grammar.GnuGroup(m, position, bytes, parsed, pending) ==
            After(PartFrames(p), Beyond(m.(state := AwaitingHeader), position, bytes, PartFrames(p)))
  {
    hide Archive, CarriesData, Standing, GnuHeader, ParseHeader, Member, Beyond;
    var block := bytes[..BLOCK_SIZE];
    HeadersKeepBlock(position, block);
    var step := GnuHeaderStep(m, position, block, parsed, pending);
    assert Grammar.GnuGroup(m, position, bytes, parsed, pending) == Member(m, position, bytes, step);
    p := MemberDerived(m, position, bytes, step);
    assert ReadsAs(p.header, GnuFormat, parsed.typeflag, parsed.size);
  }

  lemma {:induction false} GnuDerived(m: Machine, position: U64, bytes: seq<Byte>, parsed: ParsedHeader, pending: PendingGnu)
    returns (names: seq<Part>, member: Part)
    requires m.state.Failed? && m.format == Some(GnuFormat) && Fits(position, bytes, BLOCK_SIZE)
    requires ParseHeader(position, bytes[..BLOCK_SIZE]) == Ok(parsed) && parsed.format == GnuFormat
    requires Grammar.GnuGroup(m, position, bytes, parsed, pending).Some?
    ensures NamesLeft(m.policy, pending, names) && GnuMemberPart(m.policy, LinkNamed(pending, names), member)
    ensures var frames := PartsFrames(names) + PartFrames(member);
            && Standing(frames, position, bytes)
            && BLOCK_SIZE * |frames| <= |bytes| && position + BLOCK_SIZE * |frames| < U64_LIMIT
            && Grammar.GnuGroup(m, position, bytes, parsed, pending) ==
               After(frames, Beyond(m.(state := AwaitingHeader), position, bytes, frames))
    decreases |bytes|
  {
    hide Archive, CarriesData, Standing, GnuHeader, ParseHeader, Member, Beyond, Grammar.GnuGroup, GnuMemberPart, GnuNamePart,
         NamesLeft, LinkNamed, PartFrames;
    if GnuExtensionOf(parsed.typeflag).None? {
      member := GnuMemberDerived(m, position, bytes, parsed, pending);
      names := [];
      NoNames(pending);
      NoNamesLeft(m.policy, pending);
      assert PartsFrames(names) + PartFrames(member) == PartFrames(member);
    } else {
      var p := GnuNameDerived(m, position, bytes, parsed, pending);
      var frames := PartFrames(p);
      var n := BLOCK_SIZE * |frames|;
      var seen := MarkSeen(pending, p.header.gnuKind);
      var next := GnuMemberHeader(m, position + n, bytes[n..], seen);
      PartIsLong(p);
      var more;
      more, member := GnuDerived(m, position + n, bytes[n..], next, seen);
      names := [p] + more;
      assert names[1..] == more;
      FirstName(m.policy, pending, names);
      var rest := PartsFrames(more) + PartFrames(member);
      assert PartsFrames(names) + PartFrames(member) == frames + rest;
      StandingConcat(frames, rest, position, bytes);
      StandingBound(frames + rest, position, bytes);
      BeyondTwice(m.(state := AwaitingHeader), position, bytes, frames, rest);
      AfterTwice(frames, rest, Beyond(m.(state := AwaitingHeader), position, bytes, frames + rest));
    }
  }

  lemma NoNamesLeft(policy: StreamPolicy, pending: PendingGnu)
    ensures NamesLeft(policy, pending, [])
  {
  }

  lemma PartIsLong(p: Part)
    ensures |PartFrames(p)| > 0
  {
  }

  /** Behind a GNU extension comes another GNU header. */
  lemma GnuMemberHeader(m: Machine, position: U64, bytes: seq<Byte>, pending: PendingGnu) returns (parsed: ParsedHeader)
    requires m.state.Failed? && m.format == Some(GnuFormat)
    requires GnuMember(m, position, bytes, pending).Some?
    ensures Fits(position, bytes, BLOCK_SIZE)
    ensures ParseHeader(position, bytes[..BLOCK_SIZE]) == Ok(parsed) && parsed.format == GnuFormat
    ensures GnuMember(m, position, bytes, pending) == Grammar.GnuGroup(m, position, bytes, parsed, pending)
  {
    hide ParseHeader, Grammar.GnuGroup;
    parsed := CheckedHeader(m, position, bytes[..BLOCK_SIZE]).value.1;
  }

  lemma GnuGroupDerived(m: Machine, position: U64, bytes: seq<Byte>, parsed: ParsedHeader) returns (g: Group)
    requires InFamily(m, GnuFormat) && Fits(position, bytes, BLOCK_SIZE)
    requires ParseHeader(position, bytes[..BLOCK_SIZE]) == Ok(parsed) && parsed.format == GnuFormat
    requires Archive(m, position, bytes).Some?
    ensures WellFormedGroup(m.policy, GnuFormat, m.globals, m.globalSize, g)
    ensures Standing(GroupFrames(g), position, bytes) && GroupAccepted(m, GnuFormat, position, bytes, g)
  {
    hide Archive, ParseHeader, GnuNames, GnuMemberPart, Grammar.GnuGroup, PartFrames, PartsFrames, PaxExtension, Member, Beyond, Standing;
    ArchiveDispatches(m, position, bytes, parsed);
    var m1 := m.(state := Failed, format := Some(GnuFormat));
    var names, member := GnuDerived(m1, position, bytes, parsed, PendingGnu(false, false));
    g := GnuGroup(names, member);
    assert m1.(state := AwaitingHeader) == Boundary(m, GnuFormat, m.globals, m.globalSize);
  }

  lemma GlobalGroupDerived(m: Machine, position: U64, bytes: seq<Byte>, parsed: ParsedHeader) returns (g: Group)
    requires InFamily(m, PaxFormat) && Fits(position, bytes, BLOCK_SIZE)
    requires ParseHeader(position, bytes[..BLOCK_SIZE]) == Ok(parsed)
    requires parsed.format == PaxFormat && parsed.typeflag == TYPE_PAX_GLOBAL
    requires Archive(m, position, bytes).Some?
    ensures WellFormedGroup(m.policy, PaxFormat, m.globals, m.globalSize, g)
    ensures Standing(GroupFrames(g), position, bytes) && GroupAccepted(m, PaxFormat, position, bytes, g)
  {
    hide Archive, ParseHeader, PartFrames, PaxExtension, PaxExtensionPart, RecordsOf, Beyond, Standing;
    ArchiveDispatches(m, position, bytes, parsed);
    var m1 := m.(state := Failed, format := Some(PaxFormat));
    var p := PaxExtensionDerived(m1, position, bytes, parsed.size, Global);
    ExtensionIsPax(m.policy, m.globals, p, Global, RecordsOf(p));
    g := GlobalGroup(p);
  }

  lemma PlainGroupDerived(m: Machine, position: U64, bytes: seq<Byte>, parsed: ParsedHeader) returns (g: Group)
    requires InFamily(m, PaxFormat) && Fits(position, bytes, BLOCK_SIZE)
    requires ParseHeader(position, bytes[..BLOCK_SIZE]) == Ok(parsed)
    requires parsed.format == PaxFormat && !IsPaxExtension(parsed.typeflag)
    requires Archive(m, position, bytes).Some?
    ensures WellFormedGroup(m.policy, PaxFormat, m.globals, m.globalSize, g)
    ensures Standing(GroupFrames(g), position, bytes) && GroupAccepted(m, PaxFormat, position, bytes, g)
  {
    hide Archive, ParseHeader, PartFrames, Member, PaxMemberPart, UstarHeaderStep, Beyond, Standing;
    ArchiveDispatches(m, position, bytes, parsed);
    var m1 := m.(state := Failed, format := Some(PaxFormat));
    var p := PaxMemberDerived(m1, position, bytes, parsed, None);
    g := PaxGroup(None, p);
    assert m1.(state := AwaitingHeader) == Boundary(m, PaxFormat, m.globals, m.globalSize);
  }

  lemma LocalGroupDerived(m: Machine, position: U64, bytes: seq<Byte>, parsed: ParsedHeader) returns (g: Group)
    requires InFamily(m, PaxFormat) && Fits(position, bytes, BLOCK_SIZE)
    requires ParseHeader(position, bytes[..BLOCK_SIZE]) == Ok(parsed)
    requires parsed.format == PaxFormat && parsed.typeflag == TYPE_PAX_LOCAL
    requires Archive(m, position, bytes).Some?
    ensures WellFormedGroup(m.policy, PaxFormat, m.globals, m.globalSize, g)
    ensures Standing(GroupFrames(g), position, bytes) && GroupAccepted(m, PaxFormat, position, bytes, g)
  {
    hide Archive, ParseHeader, PartFrames, PaxExtension, Member, PaxExtensionPart, PaxMemberPart, RecordsOf, LocalMember, Beyond,
         Standing, UstarHeaderStep;
    ArchiveDispatches(m, position, bytes, parsed);
    var m1 := m.(state := Failed, format := Some(PaxFormat));
    var p := PaxExtensionDerived(m1, position, bytes, parsed.size, Local);
    var n := BLOCK_SIZE * |PartFrames(p)|;
    var records := RecordsOf(p);
    var next := LocalMemberHeader(m1, position + n, bytes[n..], records);
    var member := PaxMemberDerived(m1, position + n, bytes[n..], next, Some(records));
    g := PaxGroup(Some(p), member);
    var frames, rest := PartFrames(p), PartFrames(member);
    StandingConcat(frames, rest, position, bytes);
    StandingBound(frames + rest, position, bytes);
    BeyondTwice(m1.(state := AwaitingHeader), position, bytes, frames, rest);
    AfterTwice(frames, rest, Beyond(m1.(state := AwaitingHeader), position, bytes, frames + rest));
    assert m1.(state := AwaitingHeader) == Boundary(m, PaxFormat, m.globals, m.globalSize);
  }

  /** Behind a local extended header comes an ordinary pax header. */
  lemma LocalMemberHeader(m: Machine, position: U64, bytes: seq<Byte>, records: seq<PaxRecord>) returns (parsed: ParsedHeader)
    requires m.state.Failed? && m.format == Some(PaxFormat) && LocalMember(m, position, bytes, records).Some?
    ensures Fits(position, bytes, BLOCK_SIZE)
    ensures ParseHeader(position, bytes[..BLOCK_SIZE]) == Ok(parsed) && parsed.format == PaxFormat && !IsPaxExtension(parsed.typeflag)
    ensures LocalMember(m, position, bytes, records) ==
            Member(m, position, bytes, UstarHeaderStep(m, position, bytes[..BLOCK_SIZE], parsed, Some(records)))
  {
    hide ParseHeader, UstarHeader;
    parsed := CheckedHeader(m, position, bytes[..BLOCK_SIZE]).value.1;
  }

  lemma OneGroupDerived(m: Machine, position: U64, bytes: seq<Byte>) returns (family: ArchiveFormat, g: Group)
    requires Archive(m, position, bytes).Some? && Fits(position, bytes, BLOCK_SIZE) && !IsZeroBlock(bytes[..BLOCK_SIZE])
    ensures InFamily(m, family) && WellFormedGroup(m.policy, family, m.globals, m.globalSize, g)
    ensures Standing(GroupFrames(g), position, bytes) && GroupAccepted(m, family, position, bytes, g)
  {
    hide Archive, ParseHeader, WellFormedGroup, Standing, GroupAccepted;
    var parsed := FirstHeader(m, position, bytes);
    family := parsed.format;
    if parsed.format == GnuFormat {
      g := GnuGroupDerived(m, position, bytes, parsed);
    } else if parsed.typeflag == TYPE_PAX_LOCAL {
      g := LocalGroupDerived(m, position, bytes, parsed);
    } else if parsed.typeflag == TYPE_PAX_GLOBAL {
      g := GlobalGroupDerived(m, position, bytes, parsed);
    } else {
      g := PlainGroupDerived(m, position, bytes, parsed);
    }
  }

  lemma FirstHeader(m: Machine, position: U64, bytes: seq<Byte>) returns (parsed: ParsedHeader)
    requires Archive(m, position, bytes).Some? && Fits(position, bytes, BLOCK_SIZE) && !IsZeroBlock(bytes[..BLOCK_SIZE])
    ensures ParseHeader(position, bytes[..BLOCK_SIZE]) == Ok(parsed) && InFamily(m, parsed.format)
  {
    hide ParseHeader, Grammar.GnuGroup, PaxExtension, Member;
    parsed := CheckedHeader(m.(state := Failed), position, bytes[..BLOCK_SIZE]).value.1;
  }

  lemma EndDerived(m: Machine, position: U64, bytes: seq<Byte>)
    requires Archive(m, position, bytes).Some? && (Fits(position, bytes, BLOCK_SIZE) ==> IsZeroBlock(bytes[..BLOCK_SIZE]))
    ensures EndMarked(position, bytes) && Archive(m, position, bytes) == Some([])
  {
    hide CheckedHeader, Grammar.GnuGroup, PaxExtension, Member;
    assert bytes[..2 * BLOCK_SIZE] == bytes[..BLOCK_SIZE] + bytes[BLOCK_SIZE..2 * BLOCK_SIZE];
  }

  /** Every accepted input is laid out from well-formed groups of one family and the end marker. */
  lemma {:induction false} AcceptedDerived(m: Machine, position: U64, bytes: seq<Byte>)
    returns (family: ArchiveFormat, groups: seq<Group>)
    requires Archive(m, position, bytes).Some?
    ensures InFamily(m, family) && WellFormed(m.policy, family, m.globals, m.globalSize, groups)
    ensures Archive(m, position, bytes) == Some(Frames(groups)) && Laid(Frames(groups), position, bytes)
    decreases |bytes|
  {
    hide Archive, WellFormedGroup, Standing, GroupFrames, EndMarked;
    if Fits(position, bytes, BLOCK_SIZE) && !IsZeroBlock(bytes[..BLOCK_SIZE]) {
      var g;
      family, g := OneGroupDerived(m, position, bytes);
      var frames := GroupFrames(g);
      var n := BLOCK_SIZE * |frames|;
      GroupIsLong(g);
      var m1 := Boundary(m, family, GlobalsAfter(m.globals, g), TotalAfter(m.globalSize, g));
      var family1, more := AcceptedDerived(m1, position + n, bytes[n..]);
      groups := [g] + more;
      assert groups[1..] == more;
      var rest := Frames(more);
      StandingConcat(frames, rest, position, bytes);
      StandingBound(rest, position + n, bytes[n..]);
      assert bytes[n..][BLOCK_SIZE * |rest|..] == bytes[BLOCK_SIZE * |frames + rest|..];
    } else {
      EndDerived(m, position, bytes);
      groups, family := [], if m.format.Some? then m.format.value else PaxFormat;
      NothingStands(position, bytes);
      assert bytes[0..] == bytes;
    }
  }

  lemma NothingStands(position: nat, bytes: seq<Byte>)
    requires position < U64_LIMIT
    ensures Standing([], position, bytes)
  {
  }

  lemma GroupIsLong(g: Group)
    ensures |GroupFrames(g)| > 0
  {
  }

  /** A complete archive: well-formed groups of one family, laid out from the start of the input. */
  ghost predicate Archived(policy: StreamPolicy, bytes: seq<Byte>, frames: seq<Frame>)
  {
    exists family, groups ::
      WellFormed(policy, family, [], 0, groups) && Frames(groups) == frames && Laid(frames, 0, bytes)
  }

  /**
   * The block machine is the language: a run over an input completes with certain frames if and only if the input
   * is laid out from well-formed groups that have those frames.
   */
  lemma MachineIsLanguage(policy: StreamPolicy, bytes: seq<Byte>, frames: seq<Frame>)
    ensures Run(Start(policy), 0, bytes) == Outcome(frames, true) <==> Archived(policy, bytes, frames)
  {
    hide Run, Archive, WellFormed, Laid, Frames;
    var m := Start(policy);
    ArchiveAgrees(m, 0, bytes);
    if Archive(m, 0, bytes).Some? {
      var family, groups := AcceptedDerived(m, 0, bytes);
      assert Run(m, 0, bytes) == Outcome(Frames(groups), true);
      assert WellFormed(policy, family, [], 0, groups);
    }
    if Archived(policy, bytes, frames) {
      var family, groups :| WellFormed(policy, family, [], 0, groups) && Frames(groups) == frames && Laid(frames, 0, bytes);
      LanguageAccepted(m, family, 0, bytes, groups);
    }
  }
}
