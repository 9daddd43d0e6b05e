/** The tar grammar: whole headers, extensions and payloads at a time, and its agreement with the block machine. */
module Grammar {
  import opened Octets
  import opened Numbers
  import opened Header
  import opened PaxRecords
  import opened Pax
  import opened Framing

  // ------------------------------------------------------------ the grammar

  /** `n` more bytes are there and their offsets are representable. */
  predicate Fits(position: U64, bytes: seq<Byte>, n: nat)
  {
    n <= |bytes| && position + n < U64_LIMIT
  }

  /** The data frames of a payload of `n` bytes: one per block, the last one carrying `completed`. */
  function PayloadFrames(position: U64, bytes: seq<Byte>, n: nat, owner: DataOwner, completed: Option<seq<PaxRecord>>): (fs: seq<Frame>)
    requires Fits(position, bytes, Padded(n))
    ensures |fs| == BlocksFor(n)
    decreases n
  {
    if n == 0 then []
    else if n <= BLOCK_SIZE then [DataFrame(position, bytes[..BLOCK_SIZE], n, owner, completed)]
    else
      [DataFrame(position, bytes[..BLOCK_SIZE], BLOCK_SIZE, owner, None)]
      + PayloadFrames(position + BLOCK_SIZE, bytes[BLOCK_SIZE..], n - BLOCK_SIZE, owner, completed)
  }

  /** The meaningful lengths of data frames. */
  function TotalLength(frames: seq<Frame>): nat
  {
    if frames == [] then 0
    else (if frames[0].DataFrame? then frames[0].len else 0) + TotalLength(frames[1..])
  }

  function After(frames: seq<Frame>, rest: Option<seq<Frame>>): Option<seq<Frame>>
  {
    match rest
    case None => None
    case Some(more) => Some(frames + more)
  }

  function AtBoundary(m: Machine): Machine { m.(state := AwaitingHeader) }

  /** Members, extensions and global headers up to two zero blocks; the frames they are made of. */
  function Archive(m: Machine, position: U64, bytes: seq<Byte>): Option<seq<Frame>>
    decreases |bytes|, 3
  {
    if !Fits(position, bytes, BLOCK_SIZE) then None
    else
      var block := bytes[..BLOCK_SIZE];
      if IsZeroBlock(block) then
        if Fits(position, bytes, 2 * BLOCK_SIZE) && IsZeroBlock(bytes[BLOCK_SIZE..2 * BLOCK_SIZE]) then Some([]) else None
      else
        match CheckedHeader(m.(state := Failed), position, block)
        case Err(_) => None
        case Ok((m', parsed)) =>
          if parsed.format == GnuFormat then GnuGroup(m', position, bytes, parsed, PendingGnu(false, false))
          else if parsed.typeflag == TYPE_PAX_LOCAL then PaxExtension(m', position, bytes, parsed.size, Local)
          else if parsed.typeflag == TYPE_PAX_GLOBAL then PaxExtension(m', position, bytes, parsed.size, Global)
          else Member(m', position, bytes, UstarHeaderStep(m', position, block, parsed, None))
  }

  /** An ordinary member header and the blocks of its payload. */
  function Member(m: Machine, position: U64, bytes: seq<Byte>, header: StepResult): Option<seq<Frame>>
    requires Fits(position, bytes, BLOCK_SIZE)
    decreases |bytes|, 0
  {
    match header
    case Ok((m', Some(HeaderFrame(h)))) =>
      var size := h.effectiveSize;
      if !Fits(position, bytes, BLOCK_SIZE + Padded(size)) then None
      else
        After([HeaderFrame(h)] + PayloadFrames(position + BLOCK_SIZE, bytes[BLOCK_SIZE..], size, MemberData, None),
              Archive(AtBoundary(m'), position + BLOCK_SIZE + Padded(size), bytes[BLOCK_SIZE + Padded(size)..]))
    case _ => None
  }

  /** A pax extended header; a local one must be followed by its ordinary member header. */
  function PaxExtension(m: Machine, position: U64, bytes: seq<Byte>, size: U64, kind: PaxKind): Option<seq<Frame>>
    requires Fits(position, bytes, BLOCK_SIZE)
    decreases |bytes|, 1
  {
    match PaxHeaderStep(m, position, bytes[..BLOCK_SIZE], size, kind)
    case Ok((m', Some(frame))) =>
      if !Fits(position, bytes, BLOCK_SIZE + Padded(size)) then None
      else
        var rest, next := bytes[BLOCK_SIZE + Padded(size)..], position + BLOCK_SIZE + Padded(size);
        (match ParsePayload(bytes[BLOCK_SIZE..BLOCK_SIZE + size], GlobalCharset(m.globals))
         case Err(_) => None
         case Ok(records) =>
           var frames := [frame] + PayloadFrames(position + BLOCK_SIZE, bytes[BLOCK_SIZE..], size, PaxData(kind), Some(records));
           if kind == Global then After(frames, Archive(AtBoundary(m').(globals := m.globals + records), next, rest))
           else After(frames, LocalMember(m'.(state := Failed), next, rest, records)))
    case _ => None
  }

  function LocalMember(m: Machine, position: U64, bytes: seq<Byte>, records: seq<PaxRecord>): Option<seq<Frame>>
    decreases |bytes|, 2
  {
    if !Fits(position, bytes, BLOCK_SIZE) then None
    else Member(m, position, bytes, LocalMemberStep(m, position, bytes[..BLOCK_SIZE], records))
  }

  /** GNU long-name and long-link extensions, each at most once, and the member they describe. */
  function GnuGroup(m: Machine, position: U64, bytes: seq<Byte>, parsed: ParsedHeader, pending: PendingGnu): Option<seq<Frame>>
    requires Fits(position, bytes, BLOCK_SIZE)
    decreases |bytes|, 1
  {
    var header := GnuHeaderStep(m, position, bytes[..BLOCK_SIZE], parsed, pending);
    match header
    case Ok((m', Some(GnuFrame(p, b, kind, size)))) =>
      if !Fits(position, bytes, BLOCK_SIZE + Padded(size)) then None
      else
        var rest, next := bytes[BLOCK_SIZE + Padded(size)..], position + BLOCK_SIZE + Padded(size);
        var frames := [GnuFrame(p, b, kind, size)]
                      + PayloadFrames(position + BLOCK_SIZE, bytes[BLOCK_SIZE..], size, GnuData(kind), None);
        After(frames, GnuMember(m.(state := Failed), next, rest, MarkSeen(pending, kind)))
    case _ => Member(m, position, bytes, header)
  }

  function GnuMember(m: Machine, position: U64, bytes: seq<Byte>, pending: PendingGnu): Option<seq<Frame>>
    decreases |bytes|, 2
  {
    if !Fits(position, bytes, BLOCK_SIZE) || IsZeroBlock(bytes[..BLOCK_SIZE]) then None
    else
      match CheckedHeader(m, position, bytes[..BLOCK_SIZE])
      case Err(_) => None
      case Ok((m', parsed)) => GnuGroup(m', position, bytes, parsed, pending)
  }

  // ------------------------------------------------------- the machine's run

  /** All frames of an input, and whether the end marker was reached. */
  datatype Outcome = Outcome(frames: seq<Frame>, complete: bool)

  function Run(m: Machine, position: U64, bytes: seq<Byte>): Outcome
    decreases |bytes|
  {
    match NextFrame(m, position, bytes)
    case ScanFail(_) => Outcome([], false)
    case ScanEnd(m') => Outcome([], m'.state.Complete?)
    case ScanFrame(m', frame, next, rest) =>
      FramesAreLossless(m, position, bytes);
      var more := Run(m', next, rest);
      Outcome([frame] + more.frames, more.complete)
  }

  /** The grammar's answer and the machine's run agree: same verdict, and on acceptance the same frames. */
  predicate Agree(parsed: Option<seq<Frame>>, run: Outcome)
  {
    match parsed
    case None => !run.complete
    case Some(frames) => run == Outcome(frames, true)
  }

  /** Running `frames` from one configuration leads to another. */
  ghost predicate Reaches(
      m: Machine, position: U64, bytes: seq<Byte>, frames: seq<Frame>, m': Machine, position': U64, bytes': seq<Byte>)
    decreases |frames|
  {
    if frames == [] then m == m' && position == position' && bytes == bytes'
    else
      match NextFrame(m, position, bytes)
      case ScanFrame(m1, frame, next, rest) => frame == frames[0] && Reaches(m1, next, rest, frames[1..], m', position', bytes')
      case _ => false
  }

  lemma {:induction false} RunReaches(
      m: Machine, position: U64, bytes: seq<Byte>, frames: seq<Frame>, m': Machine, position': U64, bytes': seq<Byte>)
    requires Reaches(m, position, bytes, frames, m', position', bytes')
    ensures Run(m, position, bytes) == Outcome(frames + Run(m', position', bytes').frames, Run(m', position', bytes').complete)
    decreases |frames|
  {
    hide NextFrame;
    var rest := Run(m', position', bytes');
    if frames == [] {
      assert [] + rest.frames == rest.frames;
    } else {
      var scan := NextFrame(m, position, bytes);
      RunReaches(scan.machine, scan.next, scan.rest, frames[1..], m', position', bytes');
      assert frames + rest.frames == [frames[0]] + (frames[1..] + rest.frames);
    }
  }

  /** What one block does to a run. */
  lemma RunOneBlock(m: Machine, position: U64, bytes: seq<Byte>)
    requires !Finished(m)
    ensures !Fits(position, bytes, BLOCK_SIZE) ==> Run(m, position, bytes) == Outcome([], false)
    ensures Fits(position, bytes, BLOCK_SIZE) ==>
              match Step(m, position, bytes[..BLOCK_SIZE])
              case Err(e) => Run(m, position, bytes) == Outcome([], false)
              case Ok((m', Some(frame))) =>
                && NextFrame(m, position, bytes) == ScanFrame(m', frame, position + BLOCK_SIZE, bytes[BLOCK_SIZE..])
                && var more := Run(m', position + BLOCK_SIZE, bytes[BLOCK_SIZE..]);
                   Run(m, position, bytes) == Outcome([frame] + more.frames, more.complete)
              case Ok((m', None)) =>
                NextFrame(m, position, bytes) == NextFrame(m', position + BLOCK_SIZE, bytes[BLOCK_SIZE..])
  {
    hide Step, NextFrame;
    if Fits(position, bytes, BLOCK_SIZE) {
      ScanOneBlock(m, position, bytes[..BLOCK_SIZE], bytes[BLOCK_SIZE..]);
      assert bytes == bytes[..BLOCK_SIZE] + bytes[BLOCK_SIZE..];
    } else {
      ScanStops(m, position, bytes);
    }
  }

  lemma ReachesOne(m: Machine, position: U64, bytes: seq<Byte>, frame: Frame, m': Machine)
    requires !Finished(m) && Fits(position, bytes, BLOCK_SIZE)
    requires Step(m, position, bytes[..BLOCK_SIZE]) == Ok((m', Some(frame)))
    ensures Reaches(m, position, bytes, [frame], m', position + BLOCK_SIZE, bytes[BLOCK_SIZE..])
  {
    hide Step, NextFrame;
    RunOneBlock(m, position, bytes);
    assert [frame][1..] == [];
  }

  lemma {:induction false} ReachesMore(
      m: Machine, position: U64, bytes: seq<Byte>, frames: seq<Frame>, m1: Machine, position1: U64, bytes1: seq<Byte>,
      more: seq<Frame>, m2: Machine, position2: U64, bytes2: seq<Byte>)
    requires Reaches(m, position, bytes, frames, m1, position1, bytes1)
    requires Reaches(m1, position1, bytes1, more, m2, position2, bytes2)
    ensures Reaches(m, position, bytes, frames + more, m2, position2, bytes2)
    decreases |frames|
  {
    hide NextFrame;
    if frames == [] {
      assert [] + more == more;
    } else {
      var scan := NextFrame(m, position, bytes);
      ReachesMore(scan.machine, scan.next, scan.rest, frames[1..], m1, position1, bytes1, more, m2, position2, bytes2);
      assert (frames + more)[1..] == frames[1..] + more;
    }
  }

  // ------------------------------------------------------ payloads in blocks

  /** The state that reads `n` payload bytes for `owner`, and the one that follows. */
  datatype Reading =
    | ReadMemberData
    | ReadGnuData(gnuKind: GnuKind, pending: PendingGnu)
    | ReadPaxData(paxKind: PaxKind, headerPosition: U64, collected: seq<Byte>)

  function ReadingState(r: Reading, n: U64): State
  {
    match r
    case ReadMemberData => MemberPayloadState(n)
    case ReadGnuData(kind, pending) => if n == 0 then AwaitingGnuMember(pending) else ReadingGnu(kind, n, pending)
    case ReadPaxData(kind, headerPosition, collected) => ReadingPax(kind, headerPosition, n, collected)
  }

  function OwnerOf(r: Reading): DataOwner
  {
    match r
    case ReadMemberData => MemberData
    case ReadGnuData(kind, _) => GnuData(kind)
    case ReadPaxData(kind, _, _) => PaxData(kind)
  }

  /** After one more full block that is not the last. */
  function Advanced(r: Reading, block: Block): Reading
  {
    if r.ReadPaxData? then r.(collected := r.collected + block) else r
  }

  /** What the last block of the payload yields: the next machine and the completed records. */
  function Finish(m: Machine, r: Reading, tail: seq<Byte>): Option<(Machine, Option<seq<PaxRecord>>)>
  {
    match r
    case ReadMemberData => Some((AtBoundary(m), None))
    case ReadGnuData(_, pending) => Some((m.(state := AwaitingGnuMember(pending)), None))
    case ReadPaxData(kind, _, collected) =>
      match ParsePayload(collected + tail, GlobalCharset(m.globals))
      case Err(_) => None
      case Ok(records) =>
        if kind == Local then Some((m.(state := AwaitingUstarHeader(records)), Some(records)))
        else Some((AtBoundary(m).(globals := m.globals + records), Some(records)))
  }

  /** One payload block, last or not. */
  lemma PayloadBlockStep(m: Machine, r: Reading, n: U64, position: U64, block: Block)
    requires n > 0 && m.state == ReadingState(r, n)
    ensures n > BLOCK_SIZE ==>
              Step(m, position, block) == Ok((m.(state := ReadingState(Advanced(r, block), n - BLOCK_SIZE)),
                                              Some(DataFrame(position, block, BLOCK_SIZE, OwnerOf(r), None))))
    ensures n <= BLOCK_SIZE ==>
              match Finish(m, r, block[..n])
              case None => Step(m, position, block).Err?
              case Some((m', completed)) => Step(m, position, block) == Ok((m', Some(DataFrame(position, block, n, OwnerOf(r), completed))))
  {
    hide ParsePayload, GlobalCharset;
    assert block[..BLOCK_SIZE] == block;
  }

  /** A payload that is there, and that parses if it must, is read as exactly its data frames. */
  lemma {:induction false} PayloadReaches(m: Machine, r: Reading, n: U64, position: U64, bytes: seq<Byte>)
    requires n > 0 && m.state == ReadingState(r, n) && Fits(position, bytes, Padded(n))
    requires Finish(m, r, bytes[..n]).Some?
    ensures var (m', completed) := Finish(m, r, bytes[..n]).value;
            Reaches(m, position, bytes, PayloadFrames(position, bytes, n, OwnerOf(r), completed),
                    m', position + Padded(n), bytes[Padded(n)..])
    decreases n
  {
    hide Step, NextFrame, Finish, Reaches;
    var block := bytes[..BLOCK_SIZE];
    var (m', completed) := Finish(m, r, bytes[..n]).value;
    PayloadBlockStep(m, r, n, position, block);
    if n <= BLOCK_SIZE {
      assert block[..n] == bytes[..n];
      ReachesOne(m, position, bytes, DataFrame(position, block, n, OwnerOf(r), completed), m');
    } else {
      var rest, r1 := bytes[BLOCK_SIZE..], Advanced(r, block);
      var m1 := m.(state := ReadingState(r1, n - BLOCK_SIZE));
      FinishAdvanced(m, r, bytes, n);
      ReachesOne(m, position, bytes, DataFrame(position, block, BLOCK_SIZE, OwnerOf(r), None), m1);
      PayloadReaches(m1, r1, n - BLOCK_SIZE, position + BLOCK_SIZE, rest);
      assert bytes[Padded(n)..] == rest[Padded(n - BLOCK_SIZE)..];
      ReachesMore(m, position, bytes, [DataFrame(position, block, BLOCK_SIZE, OwnerOf(r), None)], m1, position + BLOCK_SIZE, rest,
                  PayloadFrames(position + BLOCK_SIZE, rest, n - BLOCK_SIZE, OwnerOf(r), completed),
                  m', position + Padded(n), bytes[Padded(n)..]);
    }
  }

  lemma FinishAdvanced(m: Machine, r: Reading, bytes: seq<Byte>, n: U64)
    requires BLOCK_SIZE < n <= |bytes| && m.state == ReadingState(r, n)
    ensures var r1 := Advanced(r, bytes[..BLOCK_SIZE]);
            Finish(m.(state := ReadingState(r1, n - BLOCK_SIZE)), r1, bytes[BLOCK_SIZE..][..n - BLOCK_SIZE]) == Finish(m, r, bytes[..n])
  {
    hide ParsePayload, GlobalCharset;
    assert bytes[..n] == bytes[..BLOCK_SIZE] + bytes[BLOCK_SIZE..][..n - BLOCK_SIZE];
    if r.ReadPaxData? {
      assert r.collected + bytes[..n] == r.collected + bytes[..BLOCK_SIZE] + bytes[BLOCK_SIZE..][..n - BLOCK_SIZE];
    }
  }

  /** A payload that is cut short, or that does not parse, ends the run without the end marker. */
  lemma {:induction false} PayloadFails(m: Machine, r: Reading, n: U64, position: U64, bytes: seq<Byte>)
    requires n > 0 && m.state == ReadingState(r, n)
    requires !Fits(position, bytes, Padded(n)) || Finish(m, r, bytes[..n]).None?
    ensures !Run(m, position, bytes).complete
    decreases n
  {
    hide Step, NextFrame, ParsePayload, GlobalCharset;
    RunOneBlock(m, position, bytes);
    if Fits(position, bytes, BLOCK_SIZE) {
      var block := bytes[..BLOCK_SIZE];
      PayloadBlockStep(m, r, n, position, block);
      if n <= BLOCK_SIZE {
        assert block[..n] == bytes[..n];
      } else {
        var r1 := Advanced(r, block);
        if n <= |bytes| { FinishAdvanced(m, r, bytes, n); }
        PayloadFails(m.(state := ReadingState(r1, n - BLOCK_SIZE)), r1, n - BLOCK_SIZE, position + BLOCK_SIZE, bytes[BLOCK_SIZE..]);
      }
    }
  }

  // --------------------------------------------- the grammar is the machine

  /** The machine after a whole payload, which may be empty. */
  function Completion(m: Machine, r: Reading, payload: seq<Byte>): Option<(Machine, Option<seq<PaxRecord>>)>
  {
    if payload == [] then Some((m, None)) else Finish(m, r, payload)
  }

  /** A header step that yields a frame, then a payload, then the rest. */
  lemma HeaderThenPayload(
      m0: Machine, position: U64, bytes: seq<Byte>, m1: Machine, frame: Frame, r: Reading, n: U64)
    requires !Finished(m0) && Fits(position, bytes, BLOCK_SIZE)
    requires Step(m0, position, bytes[..BLOCK_SIZE]) == Ok((m1, Some(frame)))
    requires m1.state == ReadingState(r, n) && (n == 0 ==> !r.ReadPaxData?)
    ensures !Fits(position, bytes, BLOCK_SIZE + Padded(n)) ==> !Run(m0, position, bytes).complete
    ensures Fits(position, bytes, BLOCK_SIZE + Padded(n)) ==>
              match Completion(m1, r, bytes[BLOCK_SIZE..BLOCK_SIZE + n])
              case None => !Run(m0, position, bytes).complete
              case Some((m2, completed)) =>
                var more := Run(m2, position + BLOCK_SIZE + Padded(n), bytes[BLOCK_SIZE + Padded(n)..]);
                Run(m0, position, bytes) ==
                Outcome([frame] + PayloadFrames(position + BLOCK_SIZE, bytes[BLOCK_SIZE..], n, OwnerOf(r), completed) + more.frames, more.complete)
  {
    hide Step, NextFrame, Run, Finish, ReadingState, PayloadFrames, OwnerOf;
    var rest := bytes[BLOCK_SIZE..];
    RunOneBlock(m0, position, bytes);
    if n == 0 {
      assert PayloadFrames(position + BLOCK_SIZE, rest, 0, OwnerOf(r), None) == [];
      assert bytes[BLOCK_SIZE + Padded(0)..] == rest;
      assert [frame] + [] == [frame];
    } else {
      if Fits(position + BLOCK_SIZE, rest, Padded(n)) {
        assert rest[..n] == bytes[BLOCK_SIZE..BLOCK_SIZE + n];
        assert rest[Padded(n)..] == bytes[BLOCK_SIZE + Padded(n)..];
        var finish := Finish(m1, r, rest[..n]);
        if finish.Some? {
          var (m2, completed) := finish.value;
          var frames := PayloadFrames(position + BLOCK_SIZE, rest, n, OwnerOf(r), completed);
          PayloadReaches(m1, r, n, position + BLOCK_SIZE, rest);
          RunReaches(m1, position + BLOCK_SIZE, rest, frames, m2, position + BLOCK_SIZE + Padded(n), rest[Padded(n)..]);
          var more := Run(m2, position + BLOCK_SIZE + Padded(n), rest[Padded(n)..]);
          assert [frame] + (frames + more.frames) == [frame] + frames + more.frames;
        } else {
          PayloadFails(m1, r, n, position + BLOCK_SIZE, rest);
        }
      } else {
        PayloadFails(m1, r, n, position + BLOCK_SIZE, rest);
      }
    }
  }

  predicate IsHeaderStep(header: StepResult)
  {
    header.Ok? ==>
      && header.value.1.Some? && header.value.1.value.HeaderFrame?
      && header.value.0.state == MemberPayloadState(header.value.1.value.header.effectiveSize)
  }

  lemma {:induction false} MemberAgrees(m0: Machine, m: Machine, position: U64, bytes: seq<Byte>, header: StepResult)
    requires !Finished(m0) && Fits(position, bytes, BLOCK_SIZE)
    requires Step(m0, position, bytes[..BLOCK_SIZE]) == header && IsHeaderStep(header)
    ensures Agree(Member(m, position, bytes, header), Run(m0, position, bytes))
    decreases |bytes|, 0
  {
    hide Step, NextFrame, Run, PayloadFrames, Archive;
    if header.Ok? {
      var (m1, frame) := header.value;
      var size := frame.value.header.effectiveSize;
      HeaderThenPayload(m0, position, bytes, m1, frame.value, ReadMemberData, size);
      if Fits(position, bytes, BLOCK_SIZE + Padded(size)) {
        ArchiveAgrees(AtBoundary(m1), position + BLOCK_SIZE + Padded(size), bytes[BLOCK_SIZE + Padded(size)..]);
      }
    } else {
      RunOneBlock(m0, position, bytes);
    }
  }

  lemma {:induction false} PaxExtensionAgrees(m0: Machine, m: Machine, position: U64, bytes: seq<Byte>, size: U64, kind: PaxKind)
    requires !Finished(m0) && Fits(position, bytes, BLOCK_SIZE)
    requires Step(m0, position, bytes[..BLOCK_SIZE]) == PaxHeaderStep(m, position, bytes[..BLOCK_SIZE], size, kind)
    ensures Agree(PaxExtension(m, position, bytes, size, kind), Run(m0, position, bytes))
    decreases |bytes|, 1
  {
    hide Step, NextFrame, Run, PayloadFrames, Archive, ParsePayload, GlobalCharset, LocalMember;
    var header := PaxHeaderStep(m, position, bytes[..BLOCK_SIZE], size, kind);
    if header.Ok? {
      var (m1, frame) := header.value;
      HeaderThenPayload(m0, position, bytes, m1, frame.value, ReadPaxData(kind, position, []), size);
      if Fits(position, bytes, BLOCK_SIZE + Padded(size)) {
        var payload := bytes[BLOCK_SIZE..BLOCK_SIZE + size];
        assert [] + payload == payload;
        var next, rest := position + BLOCK_SIZE + Padded(size), bytes[BLOCK_SIZE + Padded(size)..];
        var parsed := ParsePayload(payload, GlobalCharset(m.globals));
        if parsed.Ok? {
          if kind == Global {
            ArchiveAgrees(AtBoundary(m1).(globals := m.globals + parsed.value), next, rest);
          } else {
            LocalMemberAgrees(m1.(state := AwaitingUstarHeader(parsed.value)), next, rest, parsed.value);
          }
        }
      }
    } else {
      RunOneBlock(m0, position, bytes);
    }
  }

  lemma {:induction false} LocalMemberAgrees(m0: Machine, position: U64, bytes: seq<Byte>, records: seq<PaxRecord>)
    requires m0.state == AwaitingUstarHeader(records)
    ensures Agree(LocalMember(m0.(state := Failed), position, bytes, records), Run(m0, position, bytes))
    decreases |bytes|, 2
  {
    hide NextFrame, Run, CheckedHeader, UstarHeader, Member;
    if Fits(position, bytes, BLOCK_SIZE) {
      MemberAgrees(m0, m0.(state := Failed), position, bytes, Step(m0, position, bytes[..BLOCK_SIZE]));
    } else {
      RunOneBlock(m0, position, bytes);
    }
  }

  lemma {:induction false} GnuGroupAgrees(m0: Machine, m: Machine, position: U64, bytes: seq<Byte>, parsed: ParsedHeader, pending: PendingGnu)
    requires !Finished(m0) && Fits(position, bytes, BLOCK_SIZE) && m.state.Failed?
    requires Step(m0, position, bytes[..BLOCK_SIZE]) == GnuHeaderStep(m, position, bytes[..BLOCK_SIZE], parsed, pending)
    ensures Agree(GnuGroup(m, position, bytes, parsed, pending), Run(m0, position, bytes))
    decreases |bytes|, 1
  {
    hide Step, NextFrame, Run, PayloadFrames, GnuHeader, Member, GnuMember;
    var header := GnuHeaderStep(m, position, bytes[..BLOCK_SIZE], parsed, pending);
    if header.Ok? && header.value.1.Some? && header.value.1.value.GnuFrame? {
      var (m1, frame) := header.value;
      var kind, size := frame.value.gnuKind, frame.value.payloadSize;
      HeaderThenPayload(m0, position, bytes, m1, frame.value, ReadGnuData(kind, MarkSeen(pending, kind)), size);
      if Fits(position, bytes, BLOCK_SIZE + Padded(size)) {
        GnuMemberAgrees(m.(state := AwaitingGnuMember(MarkSeen(pending, kind))), position + BLOCK_SIZE + Padded(size),
                        bytes[BLOCK_SIZE + Padded(size)..], MarkSeen(pending, kind));
      }
    } else {
      MemberAgrees(m0, m, position, bytes, header);
    }
  }

  lemma {:induction false} GnuMemberAgrees(m0: Machine, position: U64, bytes: seq<Byte>, pending: PendingGnu)
    requires m0.state == AwaitingGnuMember(pending)
    ensures Agree(GnuMember(m0.(state := Failed), position, bytes, pending), Run(m0, position, bytes))
    decreases |bytes|, 2
  {
    hide NextFrame, Run, ParseHeader, GnuHeaderStep, GnuGroup;
    RunOneBlock(m0, position, bytes);
    if Fits(position, bytes, BLOCK_SIZE) {
      var header := CheckedHeader(m0.(state := Failed), position, bytes[..BLOCK_SIZE]);
      if !IsZeroBlock(bytes[..BLOCK_SIZE]) && header.Ok? {
        GnuGroupAgrees(m0, header.value.0, position, bytes, header.value.1, pending);
      }
    }
  }

  /** Two zero blocks, and only two zero blocks, end an archive. */
  lemma EndMarkerAgrees(m: Machine, position: U64, bytes: seq<Byte>)
    requires m.state.AwaitingHeader? && Fits(position, bytes, BLOCK_SIZE) && IsZeroBlock(bytes[..BLOCK_SIZE])
    ensures Agree(Archive(m, position, bytes), Run(m, position, bytes))
  {
    hide NextFrame;
    var m1, rest := m.(state := AwaitingSecondZero), bytes[BLOCK_SIZE..];
    RunOneBlock(m, position, bytes);
    RunOneBlock(m1, position + BLOCK_SIZE, rest);
    if Fits(position + BLOCK_SIZE, rest, BLOCK_SIZE) {
      assert rest[..BLOCK_SIZE] == bytes[BLOCK_SIZE..2 * BLOCK_SIZE];
      if IsZeroBlock(rest[..BLOCK_SIZE]) {
        CompleteScan(m.(state := Complete), position + 2 * BLOCK_SIZE, rest[BLOCK_SIZE..]);
      } else {
        SecondBlockFails(m1, position + BLOCK_SIZE, rest);
      }
    } else {
      ScanStops(m1, position + BLOCK_SIZE, rest);
    }
  }

  lemma CompleteScan(m: Machine, position: nat, bytes: seq<Byte>)
    requires m.state.Complete? && position < U64_LIMIT
    ensures NextFrame(m, position, bytes) == ScanEnd(m)
  {
  }

  lemma SecondBlockFails(m: Machine, position: U64, bytes: seq<Byte>)
    requires m.state.AwaitingSecondZero? && Fits(position, bytes, BLOCK_SIZE) && !IsZeroBlock(bytes[..BLOCK_SIZE])
    ensures NextFrame(m, position, bytes).ScanFail?
  {
    ScanOneBlock(m, position, bytes[..BLOCK_SIZE], bytes[BLOCK_SIZE..]);
    assert bytes == bytes[..BLOCK_SIZE] + bytes[BLOCK_SIZE..];
  }

  /**
   * At a member boundary the machine completes on exactly the inputs the grammar accepts,
   * and its frames are then exactly the grammar's.
   */
  lemma {:induction false} ArchiveAgrees(m: Machine, position: U64, bytes: seq<Byte>)
    requires m.state.AwaitingHeader?
    ensures Agree(Archive(m, position, bytes), Run(m, position, bytes))
    decreases |bytes|, 3
  {
    hide NextFrame, Run, ParseHeader, GnuHeaderStep, PaxHeaderStep, UstarHeader, GnuGroup, PaxExtension, Member;
    if !Fits(position, bytes, BLOCK_SIZE) {
      RunOneBlock(m, position, bytes);
    } else if IsZeroBlock(bytes[..BLOCK_SIZE]) {
      EndMarkerAgrees(m, position, bytes);
    } else {
      var block := bytes[..BLOCK_SIZE];
      var header := CheckedHeader(m.(state := Failed), position, block);
      if header.Err? {
        RunOneBlock(m, position, bytes);
      } else {
        var (m1, parsed) := header.value;
        if parsed.format == GnuFormat {
          GnuGroupAgrees(m, m1, position, bytes, parsed, PendingGnu(false, false));
        } else if parsed.typeflag == TYPE_PAX_LOCAL {
          PaxExtensionAgrees(m, m1, position, bytes, parsed.size, Local);
        } else if parsed.typeflag == TYPE_PAX_GLOBAL {
          PaxExtensionAgrees(m, m1, position, bytes, parsed.size, Global);
        } else {
          MemberAgrees(m, m1, position, bytes, UstarHeaderStep(m1, position, block, parsed, None));
        }
      }
    }
  }

  // ---------------------------------------------------------- losslessness

  /** The blocks of `frames`, end to end. */
  function BlocksOf(frames: seq<Frame>): (s: seq<Byte>)
    ensures |s| == BLOCK_SIZE * |frames|
  {
    if frames == [] then [] else FrameBlock(frames[0]) + BlocksOf(frames[1..])
  }

  /** A clean end consumes two zero blocks. */
  lemma CleanEnd(m: Machine, position: U64, bytes: seq<Byte>)
    requires EndRank(m.state) == 2 && NextFrame(m, position, bytes).ScanEnd?
    ensures |bytes| >= 2 * BLOCK_SIZE && AllNul(bytes[..2 * BLOCK_SIZE])
  {
    hide Step, NextFrame;
    RunOneBlock(m, position, bytes);
    if Fits(position, bytes, BLOCK_SIZE) {
      var first, rest := bytes[..BLOCK_SIZE], bytes[BLOCK_SIZE..];
      if Step(m, position, first).Ok? {
        StepKeepsBlock(m, position, first);
        var m1 := Step(m, position, first).value.0;
        RunOneBlock(m1, position + BLOCK_SIZE, rest);
        if Fits(position + BLOCK_SIZE, rest, BLOCK_SIZE) {
          var second := rest[..BLOCK_SIZE];
          if Step(m1, position + BLOCK_SIZE, second).Ok? {
            StepKeepsBlock(m1, position + BLOCK_SIZE, second);
            assert bytes[..2 * BLOCK_SIZE] == first + second;
          } else {
            FailedScan(m1, position + BLOCK_SIZE, rest);
          }
        } else {
          ScanStops(m1, position + BLOCK_SIZE, rest);
        }
      } else {
        FailedScan(m, position, bytes);
      }
    } else {
      ScanStops(m, position, bytes);
    }
  }

  lemma FailedScan(m: Machine, position: U64, bytes: seq<Byte>)
    requires !Finished(m) && Fits(position, bytes, BLOCK_SIZE) && Step(m, position, bytes[..BLOCK_SIZE]).Err?
    ensures NextFrame(m, position, bytes).ScanFail?
  {
    hide Step;
  }

  /** The frames of a completed run are the input itself, block by block at offsets 0, 512, 1024, ..., up to the two zero blocks. */
  lemma {:induction false} RunIsLossless(m: Machine, position: U64, bytes: seq<Byte>)
    requires EndRank(m.state) == 2 && Run(m, position, bytes).complete
    ensures var frames := Run(m, position, bytes).frames; var n := BLOCK_SIZE * |frames|;
            && n + 2 * BLOCK_SIZE <= |bytes|
            && bytes[..n] == BlocksOf(frames) && AllNul(bytes[n..n + 2 * BLOCK_SIZE])
            && forall i :: 0 <= i < |frames| ==> FramePosition(frames[i]) == position + BLOCK_SIZE * i
    decreases |bytes|
  {
    hide Step, NextFrame, AllNul;
    var scan := NextFrame(m, position, bytes);
    if scan.ScanEnd? {
      CleanEnd(m, position, bytes);
      assert bytes[0..2 * BLOCK_SIZE] == bytes[..2 * BLOCK_SIZE];
    } else {
      FramesAreLossless(m, position, bytes);
      FrameLeavesBoundary(m, position, bytes);
      RunIsLossless(scan.machine, scan.next, scan.rest);
      FrameInFront(scan.frame, Run(scan.machine, scan.next, scan.rest).frames, position, bytes, scan.rest);
    }
  }

  /** Frames laid out from one block further on, and the frame of that block in front of them. */
  lemma FrameInFront(frame: Frame, more: seq<Frame>, position: U64, bytes: seq<Byte>, rest: seq<Byte>)
    requires bytes == FrameBlock(frame) + rest && FramePosition(frame) == position
    requires BLOCK_SIZE * |more| + 2 * BLOCK_SIZE <= |rest| && rest[..BLOCK_SIZE * |more|] == BlocksOf(more)
    requires AllNul(rest[BLOCK_SIZE * |more|..BLOCK_SIZE * |more| + 2 * BLOCK_SIZE])
    requires forall i :: 0 <= i < |more| ==> FramePosition(more[i]) == position + BLOCK_SIZE + BLOCK_SIZE * i
    ensures var frames := [frame] + more; var n := BLOCK_SIZE * |frames|;
            && n + 2 * BLOCK_SIZE <= |bytes|
            && bytes[..n] == BlocksOf(frames) && AllNul(bytes[n..n + 2 * BLOCK_SIZE])
            && forall i :: 0 <= i < |frames| ==> FramePosition(frames[i]) == position + BLOCK_SIZE * i
  {
    hide AllNul;
    var frames := [frame] + more;
    var n := BLOCK_SIZE * |frames|;
    assert frames[1..] == more;
    assert bytes[..n] == FrameBlock(frame) + rest[..n - BLOCK_SIZE];
    assert bytes[n..n + 2 * BLOCK_SIZE] == rest[n - BLOCK_SIZE..n + BLOCK_SIZE];
  }

  lemma FrameLeavesBoundary(m: Machine, position: U64, bytes: seq<Byte>)
    requires EndRank(m.state) == 2 && NextFrame(m, position, bytes).ScanFrame?
    ensures EndRank(NextFrame(m, position, bytes).machine.state) == 2
  {
    hide Step;
    var block := bytes[..BLOCK_SIZE];
    StepKeepsBlock(m, position, block);
    if Step(m, position, block).value.1.None? {
      NoFrameInEndMarker(Step(m, position, block).value.0, position + BLOCK_SIZE, bytes[BLOCK_SIZE..]);
    }
  }

  /** A payload of `n` bytes has ceil(n / 512) data frames whose lengths sum to `n` and whose blocks are its padded bytes. */
  lemma {:induction false} PayloadFramesMeasure(position: U64, bytes: seq<Byte>, n: nat, owner: DataOwner, completed: Option<seq<PaxRecord>>)
    requires Fits(position, bytes, Padded(n))
    ensures var fs := PayloadFrames(position, bytes, n, owner, completed);
            |fs| == BlocksFor(n) && TotalLength(fs) == n && BlocksOf(fs) == bytes[..Padded(n)]
    decreases n
  {
    hide BlocksOf, TotalLength, Padded, BlocksFor;
    BlockCount(n);
    if n == 0 {
      NoFrames();
    } else if n <= BLOCK_SIZE {
      FirstFrame(PayloadFrames(position, bytes, n, owner, completed));
    } else {
      var rest := bytes[BLOCK_SIZE..];
      var first, more := DataFrame(position, bytes[..BLOCK_SIZE], BLOCK_SIZE, owner, None),
                         PayloadFrames(position + BLOCK_SIZE, rest, n - BLOCK_SIZE, owner, completed);
      PayloadFramesMeasure(position + BLOCK_SIZE, rest, n - BLOCK_SIZE, owner, completed);
      PaddedFront(bytes, n);
      FirstFrame([first] + more);
      assert ([first] + more)[1..] == more;
    }
  }

  lemma BlockCount(n: nat)
    ensures n == 0 ==> BlocksFor(n) == 0 && Padded(n) == 0
    ensures 0 < n <= BLOCK_SIZE ==> BlocksFor(n) == 1 && Padded(n) == BLOCK_SIZE
    ensures n > BLOCK_SIZE ==> BlocksFor(n) == 1 + BlocksFor(n - BLOCK_SIZE) && Padded(n) == BLOCK_SIZE + Padded(n - BLOCK_SIZE)
  {
  }

  lemma NoFrames()
    ensures BlocksOf([]) == [] && TotalLength([]) == 0
  {
  }

  /** Data frames at successive blocks, the last alone completing records. */
  ghost predicate Placed(fs: seq<Frame>, position: nat, owner: DataOwner, completed: Option<seq<PaxRecord>>)
  {
    forall i :: 0 <= i < |fs| ==>
      && fs[i].DataFrame? && fs[i].owner == owner && fs[i].position == position + BLOCK_SIZE * i
      && fs[i].completed == if i == |fs| - 1 then completed else None
  }

  lemma {:induction false} PayloadFramesPlaced(position: U64, bytes: seq<Byte>, n: nat, owner: DataOwner, completed: Option<seq<PaxRecord>>)
    requires Fits(position, bytes, Padded(n))
    ensures Placed(PayloadFrames(position, bytes, n, owner, completed), position, owner, completed)
    decreases n
  {
    if n > BLOCK_SIZE {
      var first := DataFrame(position, bytes[..BLOCK_SIZE], BLOCK_SIZE, owner, None);
      var more := PayloadFrames(position + BLOCK_SIZE, bytes[BLOCK_SIZE..], n - BLOCK_SIZE, owner, completed);
      PayloadFramesPlaced(position + BLOCK_SIZE, bytes[BLOCK_SIZE..], n - BLOCK_SIZE, owner, completed);
      PlacedBehind(first, more, position, owner, completed);
    }
  }

  lemma PlacedBehind(first: Frame, more: seq<Frame>, position: nat, owner: DataOwner, completed: Option<seq<PaxRecord>>)
    requires first.DataFrame? && first.owner == owner && first.position == position && first.completed.None? && more != []
    requires Placed(more, position + BLOCK_SIZE, owner, completed)
    ensures Placed([first] + more, position, owner, completed)
  {
  }

  lemma PaddedFront(bytes: seq<Byte>, n: nat)
    requires n > BLOCK_SIZE && Padded(n) <= |bytes|
    ensures Padded(n - BLOCK_SIZE) == Padded(n) - BLOCK_SIZE
    ensures bytes[..Padded(n)] == bytes[..BLOCK_SIZE] + bytes[BLOCK_SIZE..][..Padded(n - BLOCK_SIZE)]
  {
  }

  lemma FirstFrame(fs: seq<Frame>)
    requires fs != []
    ensures BlocksOf(fs) == FrameBlock(fs[0]) + BlocksOf(fs[1..])
    ensures TotalLength(fs) == (if fs[0].DataFrame? then fs[0].len else 0) + TotalLength(fs[1..])
    ensures |fs| == 1 ==> BlocksOf(fs) == FrameBlock(fs[0]) && TotalLength(fs[1..]) == 0
  {
    if |fs| == 1 { assert fs[1..] == []; }
  }

  /** What completing an archive means: the declarative grammar, and every byte up to the end marker accounted for. */
  lemma CompletedArchive(policy: StreamPolicy, bytes: seq<Byte>)
    ensures Run(Start(policy), 0, bytes).complete <==> Archive(Start(policy), 0, bytes).Some?
    ensures Archive(Start(policy), 0, bytes).Some? ==>
              var frames := Archive(Start(policy), 0, bytes).value; var n := BLOCK_SIZE * |frames|;
              && frames == Run(Start(policy), 0, bytes).frames
              && n + 2 * BLOCK_SIZE <= |bytes|
              && bytes[..n] == BlocksOf(frames) && AllNul(bytes[n..n + 2 * BLOCK_SIZE])
              && forall i :: 0 <= i < |frames| ==> FramePosition(frames[i]) == BLOCK_SIZE * i
  {
    hide Run, Archive, BlocksOf;
    ArchiveAgrees(Start(policy), 0, bytes);
    if Run(Start(policy), 0, bytes).complete {
      RunIsLossless(Start(policy), 0, bytes);
    }
  }
}
