/** What holds of every run of the block machine: one format family, and extensions within their limits. */
module Runs {
  import opened Octets
  import opened Numbers
  import opened Header
  import opened PaxRecords
  import opened Pax
  import opened Framing
  import opened Grammar

  /** The family a frame belongs to; data frames take it from their owner's header. */
  function FamilyOf(f: Frame): Option<ArchiveFormat>
  {
    match f
    case PaxFrame(_, _, _, _) => Some(PaxFormat)
    case GnuFrame(_, _, _, _) => Some(GnuFormat)
    case HeaderFrame(h) => Some(h.format)
    case DataFrame(_, _, _, owner, _) =>
      match owner
      case PaxData(_) => Some(PaxFormat)
      case GnuData(_) => Some(GnuFormat)
      case MemberData => None
  }

  function GlobalBytes(f: Frame): nat
  {
    match f
    case PaxFrame(_, _, Global, size) => size
    case _ => 0
  }

  function TotalGlobalBytes(frames: seq<Frame>): nat
  {
    if frames == [] then 0 else GlobalBytes(frames[0]) + TotalGlobalBytes(frames[1..])
  }

  /** A frame that keeps the policy's limits, in an archive locked to `family`. */
  predicate Permitted(policy: StreamPolicy, family: ArchiveFormat, f: Frame)
  {
    && (FamilyOf(f).Some? ==> FamilyOf(f) == Some(family))
    && match f
       case PaxFrame(_, _, _, size) => 0 < size <= policy.maxPaxExtensionSize
       case GnuFrame(_, _, _, size) => size <= policy.maxGnuExtensionSize
       case HeaderFrame(h) => CarriesPayload(h.format, h.kind) || (h.declaredSize == 0 && h.effectiveSize == 0)
       case DataFrame(_, _, len, _, _) => 0 < len <= BLOCK_SIZE
  }

  /** A machine inside an extension or behind one is locked to that extension's family. */
  predicate Locked(m: Machine)
  {
    match m.state
    case ReadingPax(_, _, remaining, _) => m.format == Some(PaxFormat) && remaining > 0
    case AwaitingUstarHeader(_) => m.format == Some(PaxFormat)
    case ReadingGnu(_, remaining, _) => m.format == Some(GnuFormat) && remaining > 0
    case AwaitingGnuMember(_) => m.format == Some(GnuFormat)
    case ReadingMember(remaining) => m.format.Some? && remaining > 0
    case _ => true
  }

  /** Between two machines one step apart: the lock is kept, the frame is permitted, global extensions are added up. */
  predicate KeepsLimits(m: Machine, m': Machine, frame: Option<Frame>)
  {
    && Locked(m') && m'.policy == m.policy && (m.format.Some? ==> m'.format == m.format)
    && (frame.Some? ==>
          && m'.format.Some? && Permitted(m.policy, m'.format.value, frame.value)
          && m'.globalSize == m.globalSize + GlobalBytes(frame.value)
          && (GlobalBytes(frame.value) > 0 ==> m'.globalSize <= m.policy.maxGlobalPaxExtensionsSize))
    && (frame.None? ==> m'.globalSize == m.globalSize && m'.format == m.format)
  }

  lemma GnuHeaderIsPermitted(m: Machine, position: U64, block: Block, parsed: ParsedHeader, pending: PendingGnu)
    requires m.format == Some(GnuFormat)
    ensures var r := GnuHeaderStep(m, position, block, parsed, pending);
            r.Ok? ==> r.value.1.Some? && KeepsLimits(m, r.value.0, r.value.1)
  {
    hide UstarHeader, GnuHeader;
    HeadersArePermitted(position, block);
  }

  lemma UstarHeaderIsPermitted(m: Machine, position: U64, block: Block, parsed: ParsedHeader, local: Option<seq<PaxRecord>>)
    requires m.format == Some(PaxFormat)
    ensures var r := UstarHeaderStep(m, position, block, parsed, local);
            r.Ok? ==> r.value.1.Some? && KeepsLimits(m, r.value.0, r.value.1)
  {
    hide UstarHeader, GnuHeader, EffectiveRecord;
    HeadersArePermitted(position, block);
  }

  /** Headers at a member boundary, which may select the family. */
  lemma BoundaryIsPermitted(m: Machine, position: U64, block: Block)
    ensures var r := BoundaryStep(m, position, block);
            r.Ok? ==> r.value.1.Some? && KeepsLimits(m, r.value.0, r.value.1)
  {
    hide ParseHeader, UstarHeaderStep, GnuHeaderStep;
    var checked := CheckedHeader(m, position, block);
    if checked.Ok? {
      var (m', parsed) := checked.value;
      if parsed.format == GnuFormat {
        GnuHeaderIsPermitted(m', position, block, parsed, PendingGnu(false, false));
      } else {
        UstarHeaderIsPermitted(m', position, block, parsed, None);
      }
    }
  }

  /** One block keeps the lock and the limits; global extensions are added up as they come. */
  lemma StepIsPermitted(m: Machine, position: U64, block: Block)
    requires Locked(m) && Step(m, position, block).Ok?
    ensures var (m', frame) := Step(m, position, block).value; KeepsLimits(m, m', frame)
  {
    hide ParsePayload, GlobalCharset, IsZeroBlock, UstarHeaderStep, GnuHeaderStep, BoundaryStep, ParseHeader;
    var failed := m.(state := Failed);
    BoundaryIsPermitted(failed, position, block);
    var checked := CheckedHeader(failed, position, block);
    match m.state
    case AwaitingUstarHeader(records) =>
      if checked.Ok? { UstarHeaderIsPermitted(checked.value.0, position, block, checked.value.1, Some(records)); }
    case AwaitingGnuMember(pending) =>
      if checked.Ok? { GnuHeaderIsPermitted(checked.value.0, position, block, checked.value.1, pending); }
    case _ =>
  }

  /** Member headers carry their family's format, and a size only where their kind has data. */
  lemma HeadersArePermitted(position: U64, block: Block)
    ensures forall parsed, size, allowNul :: UstarHeader(position, block, parsed, size, allowNul).Ok? ==>
              var h := UstarHeader(position, block, parsed, size, allowNul).value;
              h.format == PaxFormat && (CarriesPayload(h.format, h.kind) || (h.declaredSize == 0 && h.effectiveSize == 0))
    ensures forall parsed, link, allowNul :: GnuHeader(position, block, parsed, link, allowNul).Ok? ==>
              var h := GnuHeader(position, block, parsed, link, allowNul).value;
              h.format == GnuFormat && (CarriesPayload(h.format, h.kind) || (h.declaredSize == 0 && h.effectiveSize == 0))
  {
    hide NumericFields, KindOf;
  }

  lemma ScanIsPermitted(m: Machine, position: U64, bytes: seq<Byte>)
    requires Locked(m) && NextFrame(m, position, bytes).ScanFrame?
    ensures var s := NextFrame(m, position, bytes);
            && Locked(s.machine) && s.machine.policy == m.policy && s.machine.format.Some?
            && (m.format.Some? ==> s.machine.format == m.format)
            && Permitted(m.policy, s.machine.format.value, s.frame)
            && s.machine.globalSize == m.globalSize + GlobalBytes(s.frame)
            && (GlobalBytes(s.frame) > 0 ==> s.machine.globalSize <= m.policy.maxGlobalPaxExtensionsSize)
  {
    hide Step, Locked, Permitted, FamilyOf;
    var block := bytes[..BLOCK_SIZE];
    StepIsPermitted(m, position, block);
    StepKeepsBlock(m, position, block);
    if Step(m, position, block).value.1.None? {
      NoFrameInEndMarker(Step(m, position, block).value.0, position + BLOCK_SIZE, bytes[BLOCK_SIZE..]);
    }
  }

  /**
   * Over any input, complete or not: all frames belong to one family, every extension keeps its limit, and
   * the global extensions together keep theirs.
   */
  lemma {:induction false} RunObeysPolicy(m: Machine, position: U64, bytes: seq<Byte>)
    requires Locked(m) && m.globalSize <= m.policy.maxGlobalPaxExtensionsSize
    ensures var frames := Run(m, position, bytes).frames;
            && m.globalSize + TotalGlobalBytes(frames) <= m.policy.maxGlobalPaxExtensionsSize
            && exists family :: (m.format.Some? ==> m.format == Some(family)) && AllPermitted(m.policy, family, frames)
    decreases |bytes|
  {
    hide NextFrame, Locked, Permitted;
    var s := NextFrame(m, position, bytes);
    if s.ScanFrame? {
      FramesAreLossless(m, position, bytes);
      ScanIsPermitted(m, position, bytes);
      RunObeysPolicy(s.machine, s.next, s.rest);
      var more := Run(s.machine, s.next, s.rest).frames;
      var family :| s.machine.format == Some(family) && AllPermitted(m.policy, family, more);
      var frames := Run(m, position, bytes).frames;
      assert frames == [s.frame] + more && frames[1..] == more;
      assert AllPermitted(m.policy, family, frames);
    } else {
      var family := if m.format.Some? then m.format.value else PaxFormat;
      assert AllPermitted(m.policy, family, []);
    }
  }

  predicate AllPermitted(policy: StreamPolicy, family: ArchiveFormat, frames: seq<Frame>)
  {
    forall i :: 0 <= i < |frames| ==> Permitted(policy, family, frames[i])
  }
}
