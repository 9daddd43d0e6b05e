/** The archive reader users drive: decode policy, projection and fusing over the member reader. */
module Codec {
  import opened Octets
  import opened Pax
  import opened Framing
  import opened Grammar
  import opened Source
  import opened Logical
  import opened Decode
  import TarStream

  datatype ArchivePoll =
    | ArchivePending
    | ArchiveEnded
    | MemberDecoded(member: Member)
    | ArchiveFailed(error: DecodeError)

  predicate IsIo(e: DecodeError) { e.FramingFailure? && e.error.fault == IoFailure }

  /** `more` with one member and its payload put in front. */
  function Before(member: Member, payload: seq<Byte>, more: Option<seq<Decoded>>): Option<seq<Decoded>>
  {
    match more
    case None => None
    case Some(list) => Some([Decoded(member, payload)] + list)
  }

  /** Checks a member's extensions in the order the policy reports them: globals, format, locals. */
  method CheckMemberPolicy(policy: DecodePolicy, h: LogicalHeader, extensions: MemberExtensions) returns (r: Option<DecodeError>)
    ensures r == CheckMember(policy, h, extensions)
  {
    hide PaxRecordsFault;
    match extensions
    case PaxState(_, globals, local) =>
      assert globals[0..] == globals;
      for i := 0 to |globals|
        invariant CheckGlobals(policy, globals) == CheckGlobals(policy, globals[i..])
      {
        assert globals[i..][1..] == globals[i + 1..];
        if !policy.pax.allowGlobalExtensions {
          return Some(PolicyViolation(globals[i].position, GlobalPaxExtension));
        }
        var fault := CheckPaxRecords(policy.pax, Global, globals[i].records);
        if fault.Some? {
          return Some(PolicyViolation(globals[i].position, fault.value));
        }
      }
      r := CheckFormat(policy, h.position, h.format);
      if r.Some? { return; }
      if local.Some? {
        var fault := CheckPaxRecords(policy.pax, Local, local.value.records);
        if fault.Some? {
          return Some(PolicyViolation(local.value.position, fault.value));
        }
      }
    case GnuState(longName, longLink) =>
      return CheckFormat(policy, GnuPosition(h, longName, longLink), h.format);
  }

  class TarArchive {
    const reader: TarReader
    const policy: DecodePolicy
    var fused: bool

    constructor (source: ByteSource, policy: DecodePolicy)
      requires source.Valid() && source.unread == source.input
      ensures reader.Valid() && !fused && !reader.payload.stream.state.Failed? && this.policy == policy
      ensures fresh(reader) && fresh(reader.payload) && fresh(reader.payload.stream) && fresh(reader.globals)
      ensures fresh(reader.payload.stream.block) && fresh(reader.payload.stream.globals)
      ensures reader.payload.stream.inner == source
      ensures Rest() == DecodeArchive(policy, source.input)
    {
      hide TarReader.Valid, TarStream.TarStream.Valid, DecodeFrom, Logical.NextMember;
      this.policy := policy;
      reader := new TarReader(source, StreamPolicyOf(policy));
      fused := false;
      new;
      assert source.input[0..] == source.input;
    }

    /** The members still to come behind the current payload, or nothing if anything is wrong there. */
    ghost function Rest(): Option<seq<Decoded>>
      reads this, reader, reader.globals, reader.payload, reader.payload.stream, reader.payload.stream.globals
    {
      if reader.PayloadPresent() then DecodeFrom(policy, reader.Ahead()) else None
    }

    /** The current member's payload, when it is all there. */
    ghost function Payload(): seq<Byte>
      reads this, reader, reader.payload, reader.payload.stream
    {
      if reader.payload.start + reader.payload.size <= |reader.payload.stream.inner.input|
      then reader.payload.stream.inner.input[reader.payload.start..reader.payload.start + reader.payload.size]
      else []
    }

    /**
     * The next member. The first end or error fuses the archive: every later call reports the end, and so does a
     * call behind a payload that failed to be read. An error other than I/O is reported only when the rest of the
     * input does not decode.
     */
    method NextMember() returns (r: ArchivePoll)
      requires reader.Valid()
      modifies this, reader`pending, reader`extension, reader.globals, reader.payload, reader.payload.stream,
               reader.payload.stream.inner, reader.payload.stream.block, reader.payload.stream.globals
      ensures reader.Valid()
      ensures old(fused) || old(reader.payload.stream.state.Failed?) ==> r.ArchiveEnded?
      ensures fused <==> r.ArchiveEnded? || r.ArchiveFailed?
      ensures r.ArchivePending? ==> !reader.payload.stream.state.Failed? && Rest() == old(Rest())
      ensures r.ArchiveEnded? && !old(fused) && !old(reader.payload.stream.state.Failed?) ==> old(Rest()) == Some([])
      ensures r.ArchiveFailed? && !IsIo(r.error) ==> old(Rest()) == None
      ensures r.MemberDecoded? ==>
                && !reader.payload.stream.state.Failed?
                && reader.payload.delivered == [] && reader.payload.size == reader.payload.remaining
                && reader.payload.EndOffset() == reader.payload.start + Padded(reader.payload.size)
                && old(Rest()) == Before(r.member, Payload(), Rest())
    {
      hide TarReader.Ahead, DecodeFrom, TarStream.TarStream.Valid, TarReader.Valid, PayloadReader.Valid, PayloadReader.EndOffset;
      if fused {
        return ArchiveEnded;
      }
      var frame, ahead := PollMember();
      match frame
      case MemberPending => return ArchivePending;
      case MembersEnded =>
        fused := true;
        return ArchiveEnded;
      case MemberFailed(e) =>
        fused := true;
        return ArchiveFailed(FramingFailure(e));
      case MemberReady(header, extensions) =>
        r := Deliver(header, extensions, ahead);
    }

    /** Asks the member reader, and says what its answer means for the rest of the archive. */
    method PollMember() returns (frame: MemberPoll, ghost ahead: MemberScan)
      requires reader.Valid()
      modifies reader`pending, reader`extension, reader.globals, reader.payload, reader.payload.stream,
               reader.payload.stream.inner, reader.payload.stream.block, reader.payload.stream.globals
      ensures reader.Valid()
      ensures frame.MemberPending? ==> !reader.payload.stream.state.Failed? && Rest() == old(Rest())
      ensures old(reader.payload.stream.state.Failed?) ==> frame.MembersEnded?
      ensures frame.MembersEnded? && !old(reader.payload.stream.state.Failed?) ==> old(Rest()) == Some([])
      ensures frame.MemberFailed? ==> frame.error.fault == IoFailure || old(Rest()) == None
      ensures frame.MemberReady? ==> Found(frame.header, frame.extensions, ahead) && old(Rest()) == DecodeFrom(policy, ahead)
    {
      hide TarReader.Ahead, DecodeFrom, PayloadFault, TarStream.TarStream.Valid, TarReader.Valid, Logical.NextMember;
      ahead := if reader.PayloadPresent() then reader.Ahead() else MemberEnd;
      if reader.payload.stream.state.Failed? {
        frame := reader.NextFrame();
        return;
      }
      PayloadFaultMeans(reader);
      EndDecodes(policy);
      frame := reader.NextFrame();
      if frame.MemberFailed? {
        FailureDecodes(policy, ahead, frame.error);
      }
    }

    /** The reader stands at the payload of the member that was ahead. */
    ghost predicate Found(header: LogicalHeader, extensions: MemberExtensions, ahead: MemberScan)
      reads this, reader, reader.globals, reader.payload, reader.payload.stream, reader.payload.stream.globals
    {
      && reader.payload.stream.state == MemberPayloadState(header.effectiveSize)
      && reader.payload.delivered == [] && reader.payload.size == reader.payload.remaining == header.effectiveSize
      && reader.payload.start < U64_LIMIT && reader.payload.start <= |reader.payload.stream.inner.input|
      && reader.payload.EndOffset() == reader.payload.start + Padded(reader.payload.size)
      && ahead == MemberFound(reader.payload.stream.Abs(), reader.Abs(), header, extensions, reader.payload.start,
                              reader.payload.stream.inner.input[reader.payload.start..])
    }

    /** Applies the policy to a member and projects it. */
    method Deliver(header: LogicalHeader, extensions: MemberExtensions, ghost ahead: MemberScan) returns (r: ArchivePoll)
      requires !fused && reader.Valid() && Found(header, extensions, ahead)
      modifies this`fused
      ensures reader.Valid() && (r.MemberDecoded? || r.ArchiveFailed?)
      ensures fused <==> r.ArchiveFailed?
      ensures r.ArchiveFailed? ==> DecodeFrom(policy, ahead) == None
      ensures r.MemberDecoded? ==> DecodeFrom(policy, ahead) == Before(r.member, Payload(), Rest())
    {
      hide CheckMember, ProjectMember, TarStream.TarStream.Valid;
      MemberDecodes(header, extensions, ahead);
      var fault := CheckMemberPolicy(policy, header, extensions);
      if fault.Some? {
        fused := true;
        return ArchiveFailed(fault.value);
      }
      var member := ProjectMember(header, extensions);
      match member
      case Err(e) =>
        fused := true;
        return ArchiveFailed(e);
      case Ok(m) => return MemberDecoded(m);
    }

    lemma MemberDecodes(header: LogicalHeader, extensions: MemberExtensions, ahead: MemberScan)
      requires reader.Valid() && Found(header, extensions, ahead)
      ensures DecodeFrom(policy, ahead) ==
              match DecodeMember(policy, header, extensions)
              case Err(_) => None
              case Ok(m) => Before(m, Payload(), Rest())
    {
      hide CheckMember, ProjectMember, Logical.NextMember;
      var input, start, size := reader.payload.stream.inner.input, reader.payload.start, reader.payload.size;
      if start + Padded(size) <= |input| && start + Padded(size) < U64_LIMIT {
        assert input[start..][..size] == input[start..start + size];
        assert input[start..][Padded(size)..] == input[start + Padded(size)..];
        BoundaryOf(ahead.machine, size);
        assert NextScan(ahead) == reader.Ahead();
      } else {
        assert !reader.PayloadPresent();
      }
    }

    /**
     * The next run of the current member's payload. After a failure, a payload with anything left answers with
     * an error again.
     */
    method NextChunk(target: U64) returns (r: PayloadStep)
      requires reader.Valid()
      modifies reader.payload, reader.payload.stream, reader.payload.stream.inner, reader.payload.stream.block
      ensures reader.Valid()
      ensures r.PayloadStalled? || r.PayloadExhausted? || r.PayloadChunkRead? || r.PayloadError?
      ensures r.PayloadExhausted? <==> old(reader.payload.remaining) == 0
      ensures r.PayloadExhausted? ==> reader.payload.remaining == 0
      ensures old(reader.payload.stream.state.Failed?) && old(reader.payload.remaining) > 0 ==> r.PayloadError?
      ensures Payload() == old(Payload()) && reader.payload.size == old(reader.payload.size)
      ensures reader.payload.delivered == old(reader.payload.delivered) + if r.PayloadChunkRead? then r.bytes else []
      ensures r.PayloadChunkRead? ==>
                && r.bytes != [] && |r.bytes| == old(reader.payload.stream.DueBytes(target))
                && (|r.bytes| >= Min(old(reader.payload.remaining), target)
                    <==> old(reader.payload.stream.ReachesTarget(target)))
      ensures !r.PayloadError? && !old(reader.payload.stream.state.Failed?) ==>
                !reader.payload.stream.state.Failed? && Rest() == old(Rest())
      ensures r.PayloadError? && r.error.fault != IoFailure && !old(reader.payload.stream.state.Failed?) ==> old(Rest()) == None
    {
      hide TarReader.Ahead, DecodeFrom, PayloadFault, TarStream.TarStream.Valid, TarReader.Valid;
      if !reader.payload.stream.state.Failed? {
        PayloadFaultMeans(reader);
      }
      r := reader.NextChunk(target);
    }
  }

  lemma BoundaryOf(m: Machine, size: nat)
    ensures size == 0 && m.state == AwaitingHeader ==> AtBoundary(m) == m
  {
  }

  /** A payload that is all there, in a reader that has not failed, can only fail to be read by I/O. */
  lemma PayloadFaultMeans(reader: TarReader)
    requires reader.Valid() && !reader.payload.stream.state.Failed?
    ensures forall e :: PayloadFault(e, reader.payload.remaining, reader.payload.stream.Offset(),
                                     |reader.payload.stream.inner.input|, reader.payload.stream.state)
                        ==> e.fault == IoFailure || !reader.PayloadPresent()
    ensures forall e :: PayloadFault(e, reader.payload.remaining, reader.payload.stream.Offset(),
                                     |reader.payload.stream.inner.input|, AwaitingHeader)
                        ==> e.fault == IoFailure || !reader.PayloadPresent()
  {
    hide TarReader.Valid, TarStream.TarStream.Valid;
  }

  datatype ReadOutcome = OutOfPolls | Finished | FailedWith(error: DecodeError)

  /**
   * Reading an archive to its end, member by member and chunk by chunk, over any way its bytes arrive and any
   * stalls in between, gives exactly what the whole input decodes to; only I/O can fail on an input that decodes.
   */
  method ReadAll(archive: TarArchive, targets: seq<U64>) returns (got: seq<Decoded>, outcome: ReadOutcome)
    requires archive.reader.Valid() && !archive.fused && !archive.reader.payload.stream.state.Failed?
    modifies archive, archive.reader`pending, archive.reader`extension, archive.reader.globals, archive.reader.payload,
             archive.reader.payload.stream, archive.reader.payload.stream.inner, archive.reader.payload.stream.block,
             archive.reader.payload.stream.globals
    ensures outcome.Finished? ==> old(archive.Rest()) == Some(got)
    ensures outcome.FailedWith? && !IsIo(outcome.error) ==> old(archive.Rest()) == None
  {
    hide TarArchive.Rest, TarArchive.Payload, TarReader.Valid, TarStream.TarStream.Valid, PayloadReader.Valid;
    got := [];
    ghost var whole := archive.Rest();
    if whole.Some? { assert [] + whole.value == whole.value; }
    var polls: nat := 0;
    while polls < |targets|
      invariant archive.reader.Valid() && !archive.fused && !archive.reader.payload.stream.state.Failed?
      invariant polls <= |targets| && whole == Joined(got, archive.Rest())
    {
      var step := archive.NextMember();
      polls := polls + 1;
      match step
      case ArchivePending =>
      case ArchiveEnded => assert got + [] == got; return got, Finished;
      case ArchiveFailed(e) => return got, FailedWith(e);
      case MemberDecoded(member) =>
        var payload, done, error := ReadPayload(archive, targets[polls - 1..]);
        if error.Some? {
          return got, FailedWith(FramingFailure(error.value));
        }
        if !done {
          return got, OutOfPolls;
        }
        JoinedMore(got, member, payload, archive.Rest());
        got := got + [Decoded(member, payload)];
    }
    return got, OutOfPolls;
  }

  function Joined(got: seq<Decoded>, rest: Option<seq<Decoded>>): Option<seq<Decoded>>
  {
    match rest
    case None => None
    case Some(more) => Some(got + more)
  }

  lemma JoinedMore(got: seq<Decoded>, member: Member, payload: seq<Byte>, rest: Option<seq<Decoded>>)
    ensures Joined(got, Before(member, payload, rest)) == Joined(got + [Decoded(member, payload)], rest)
  {
    if rest.Some? {
      assert got + ([Decoded(member, payload)] + rest.value) == got + [Decoded(member, payload)] + rest.value;
    }
  }

  /** One member's payload, by chunks of any sizes. */
  method ReadPayload(archive: TarArchive, targets: seq<U64>) returns (payload: seq<Byte>, done: bool, error: Option<FrameError>)
    requires archive.reader.Valid() && !archive.reader.payload.stream.state.Failed? && archive.reader.payload.delivered == []
    modifies archive.reader.payload, archive.reader.payload.stream, archive.reader.payload.stream.inner,
             archive.reader.payload.stream.block
    ensures archive.reader.Valid()
    ensures done && error.None? ==>
              payload == archive.Payload() == old(archive.Payload()) && !archive.reader.payload.stream.state.Failed?
              && archive.Rest() == old(archive.Rest())
    ensures error.Some? && error.value.fault != IoFailure ==> old(archive.Rest()) == None
  {
    hide TarArchive.Rest, TarArchive.Payload, TarReader.Valid, TarStream.TarStream.Valid, PayloadReader.Valid;
    payload := [];
    for i := 0 to |targets|
      invariant archive.reader.Valid() && !archive.reader.payload.stream.state.Failed?
      invariant payload == archive.reader.payload.delivered
      invariant archive.Payload() == old(archive.Payload()) && archive.Rest() == old(archive.Rest())
    {
      var step := archive.NextChunk(targets[i]);
      match step
      case PayloadChunkRead(bytes) => payload := payload + bytes;
      case PayloadStalled =>
      case PayloadExhausted =>
        AllDelivered(archive);
        return payload, true, None;
      case PayloadError(e) => return payload, false, Some(e);
    }
    return payload, false, None;
  }

  lemma AllDelivered(archive: TarArchive)
    requires archive.reader.Valid() && archive.reader.payload.remaining == 0
    ensures archive.reader.payload.delivered == archive.Payload()
  {
  }
}
