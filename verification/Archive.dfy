/** Whole archives, written and read back. */
module Archive {
  import opened Octets
  import opened Numbers
  import opened Header
  import opened PaxRecords
  import opened Pax
  import opened Framing
  import opened Grammar
  import opened Logical
  import opened Write
  import opened RoundTrip
  import opened Decode

  /** One member to archive. */
  datatype Entry = Entry(member: PaxMember, payload: seq<Byte>)

  predicate ValidEntry(e: Entry)
  {
    ValidateMember(e.member).None? && FitsOctal(12, |RecordsBytes(MemberRecords(e.member))|) && |e.payload| == e.member.size
  }

  function EntryLength(e: Entry): nat { FramedLength(e.member) + Padded(|e.payload|) }

  /** `bytes` are a framed member and its padded payload. */
  ghost predicate EntryWritten(sequence: U64, e: Entry, bytes: seq<Byte>)
  {
    && |bytes| == EntryLength(e)
    && Framed(sequence, e.member, bytes[..FramedLength(e.member)])
    && bytes[FramedLength(e.member)..] == NulPadded(e.payload, Padded(|e.payload|))
  }

  function TotalLength(entries: seq<Entry>): nat
  {
    if entries == [] then 0 else EntryLength(entries[0]) + TotalLength(entries[1..])
  }

  /** `bytes` are the entries one after another, numbered from `sequence`. */
  ghost predicate EntriesWritten(sequence: nat, entries: seq<Entry>, bytes: seq<Byte>)
    decreases |entries|
  {
    if entries == [] then bytes == []
    else
      && sequence < U64_LIMIT && EntryLength(entries[0]) <= |bytes|
      && EntryWritten(sequence, entries[0], bytes[..EntryLength(entries[0])])
      && EntriesWritten(sequence + 1, entries[1..], bytes[EntryLength(entries[0])..])
  }

  /** The member the decoder should make of an entry, its header at `position`. */
  function DecodedMember(m: PaxMember, position: U64): Member
  {
    if m.kind == Directory then DirectoryMember(m.path, position)
    else if m.kind == SymbolicLink then SymbolicLinkMember(m.path, position, if m.linkPath.Some? then m.linkPath.value else [])
    else FileMember(m.path, position, m.size, m.executable)
  }

  /** What reading the entries back should give, the first of them starting at `position`. */
  function ReadBack(entries: seq<Entry>, position: nat): seq<Decoded>
    requires position + TotalLength(entries) < U64_LIMIT
  {
    if entries == [] then []
    else
      [Decoded(DecodedMember(entries[0].member, position + FramedLength(entries[0].member) - BLOCK_SIZE), entries[0].payload)]
      + ReadBack(entries[1..], position + EntryLength(entries[0]))
  }

  /** No policy has anything against the records the writer makes. */
  lemma WrittenRecordsPass(policy: PaxDecodePolicy, m: PaxMember)
    ensures PaxRecordsFault(policy, Local, TypedRecords(m)) == None
  {
    hide PaxRecordsFault, FirstVendorFault, FirstDuplicate;
    RecordsPassIff(policy, Local, TypedRecords(m));
  }

  lemma ExecutableModes(m: PaxMember)
    ensures m.kind == Regular ==> (Executable(ModeOf(m)) <==> m.executable)
  {
  }

  /** The header and extensions of a written member decode to that member. */
  lemma WrittenMemberDecodes(policy: DecodePolicy, m: PaxMember, position: U64, block: Block, extended: U64)
    requires ValidateMember(m).None?
    ensures DecodeMember(policy, LogicalHeaderOf(WrittenHeader(m, position, block)),
                         PaxState([], [], Some(Logical.PaxExtension(extended, Local, TypedRecords(m)))))
            == Ok(DecodedMember(m, position))
  {
    hide PaxRecordsFault, TypedRecords, LastRecord, FallbackSize, ModeOf, HeaderPath, RequiresDirectory, Executable;
    ValidMembers(m);
    WrittenRecordsPass(policy.pax, m);
    SizeOfRecords(m);
    ExecutableModes(m);
  }

  /** An entry whose records fit what the policy allows an extended header. */
  predicate ReadableEntry(policy: DecodePolicy, e: Entry)
  {
    |RecordsBytes(MemberRecords(e.member))| <= policy.pax.maxExtensionSize
  }

  predicate AllReadable(policy: DecodePolicy, entries: seq<Entry>)
  {
    forall i :: 0 <= i < |entries| ==> ReadableEntry(policy, entries[i])
  }

  predicate AllValid(entries: seq<Entry>)
  {
    forall i :: 0 <= i < |entries| ==> ValidEntry(entries[i])
  }

  lemma {:induction false} EntriesFill(sequence: nat, entries: seq<Entry>, bytes: seq<Byte>)
    requires EntriesWritten(sequence, entries, bytes)
    ensures |bytes| == TotalLength(entries)
    decreases |entries|
  {
    hide EntryWritten;
    if entries != [] {
      EntriesFill(sequence + 1, entries[1..], bytes[EntryLength(entries[0])..]);
    }
  }

  /** One written entry is read back: its member, then its payload, then what follows. */
  lemma EntryReads(policy: DecodePolicy, machine: Machine, position: U64, bytes: seq<Byte>, sequence: U64, e: Entry)
    requires AtPaxBoundary(machine, NO_ASSEMBLY) && machine.policy == StreamPolicyOf(policy)
    requires ValidEntry(e) && ReadableEntry(policy, e)
    requires Fits(position, bytes, EntryLength(e)) && EntryWritten(sequence, e, bytes[..EntryLength(e)])
    ensures var m' := machine.(format := Some(PaxFormat)); var n := EntryLength(e);
            DecodeFrom(policy, NextMember(machine, NO_ASSEMBLY, position, bytes)) ==
            match DecodeFrom(policy, NextMember(m', NO_ASSEMBLY, position + n, bytes[n..]))
            case None => None
            case Some(more) =>
              Some([Decoded(DecodedMember(e.member, position + FramedLength(e.member) - BLOCK_SIZE), e.payload)] + more)
  {
    hide Framed, NextMember, DecodeMember, MemberRecords, RecordsBytes, UstarLayout, HeaderName, TypedRecords, LogicalHeaderOf, ValidateMember, FitsOctal;
    var n, framed := EntryLength(e), FramedLength(e.member);
    var entry := bytes[..n];
    assert entry[..framed] == bytes[..framed];
    var block := FramedMemberReads(machine, NO_ASSEMBLY, position, bytes, sequence, e.member);
    var header := WrittenHeader(e.member, position + framed - BLOCK_SIZE, block);
    WrittenMemberDecodes(policy, e.member, position + framed - BLOCK_SIZE, block, position);
    PayloadBehindFraming(entry, bytes, framed, e.payload);
    SizeOfHeader(header);
    var scan := NextMember(machine, NO_ASSEMBLY, position, bytes);
    assert scan == MemberRead(machine, NO_ASSEMBLY, e.member, position, header, position + framed, bytes[framed..]);
    assert AtBoundary(scan.machine) == machine.(format := Some(PaxFormat));
    assert bytes[framed..][Padded(e.member.size)..] == bytes[n..];
  }

  /** Records beyond the limit are refused at their extended header. */
  lemma EntryRefused(policy: DecodePolicy, machine: Machine, position: U64, bytes: seq<Byte>, sequence: U64, e: Entry)
    requires AtPaxBoundary(machine, NO_ASSEMBLY) && machine.policy == StreamPolicyOf(policy)
    requires ValidEntry(e) && !ReadableEntry(policy, e)
    requires Fits(position, bytes, EntryLength(e)) && EntryWritten(sequence, e, bytes[..EntryLength(e)])
    ensures NextMember(machine, NO_ASSEMBLY, position, bytes).MemberFail?
  {
    hide NextMember, MemberRecords, RecordsBytes, UstarLayout, HeaderName, ValidateMember, FitsOctal, Step, NextFrame;
    var size := |RecordsBytes(MemberRecords(e.member))|;
    FitsOctalIsEncodable(12, size);
    EightToTheEleventh();
    U64HasTwentyDigits(sequence);
    var first := bytes[..BLOCK_SIZE];
    assert first == bytes[..EntryLength(e)][..FramedLength(e.member)][..BLOCK_SIZE];
    HeaderRefused(machine, position, first, PAX_HEADERS + Decimal(sequence), size);
    FailedScan(machine, position, bytes);
    NextMemberUnfolds(machine, NO_ASSEMBLY, position, bytes);
  }

  lemma HeaderRefused(m: Machine, position: U64, block: Block, name: seq<Byte>, size: U64)
    requires m.state.AwaitingHeader? && m.format != Some(GnuFormat)
    requires |name| <= 100 && UstarLayout(block, [], name, 0x1A4, size, TYPE_PAX_LOCAL, [])
    requires size < Pow(8, 11) && size > m.policy.maxPaxExtensionSize
    ensures Step(m, position, block).Err?
  {
    LayoutParses(block, [], name, 0x1A4, size, TYPE_PAX_LOCAL, [], position);
    hide UstarLayout, ParseHeader;
  }

  lemma SizeOfHeader(h: MemberHeader)
    ensures LogicalHeaderOf(h).effectiveSize == h.effectiveSize
  {
  }

  lemma PayloadBehindFraming(entry: seq<Byte>, bytes: seq<Byte>, framed: nat, payload: seq<Byte>)
    requires framed <= |entry| <= |bytes| && entry == bytes[..|entry|]
    requires entry[framed..] == NulPadded(payload, Padded(|payload|))
    ensures |entry| == framed + Padded(|payload|) && bytes[framed..][..|payload|] == payload
  {
    var padded := entry[framed..];
    assert padded[..|payload|] == payload;
    forall i | 0 <= i < |payload| ensures bytes[framed + i] == payload[i] {
      assert entry[framed + i] == padded[i] == payload[i];
    }
  }

  /** Entries followed by the end marker decode to exactly those entries, in order, when their records fit; otherwise to nothing. */
  lemma {:induction false} EntriesDecode(policy: DecodePolicy, machine: Machine, position: U64, entries: seq<Entry>, sequence: nat, bytes: seq<Byte>)
    requires AtPaxBoundary(machine, NO_ASSEMBLY) && machine.policy == StreamPolicyOf(policy) && AllValid(entries)
    requires Fits(position, bytes, TotalLength(entries) + 2 * BLOCK_SIZE)
    requires EntriesWritten(sequence, entries, bytes[..TotalLength(entries)])
    requires bytes[TotalLength(entries)..TotalLength(entries) + 2 * BLOCK_SIZE] == END_MARKER
    ensures DecodeFrom(policy, NextMember(machine, NO_ASSEMBLY, position, bytes)) ==
            if AllReadable(policy, entries) then Some(ReadBack(entries, position)) else None
    decreases |entries|
  {
    hide NextMember, DecodeFrom, EntryWritten, EntriesWritten, ReadableEntry, ValidEntry, EntryLength, DecodedMember, FramedLength,
         AtPaxBoundary, TotalLength, ReadBack;
    EntriesUnfold(sequence, entries, bytes[..TotalLength(entries)]);
    ReadBackUnfolds(entries, position);
    BoundaryKept(machine, NO_ASSEMBLY);
    if entries == [] {
      assert bytes[..2 * BLOCK_SIZE] == bytes[0..2 * BLOCK_SIZE];
      EndMarkerReads(machine, NO_ASSEMBLY, position, bytes);
      EndDecodes(policy);
    } else {
      var n, total := EntryLength(entries[0]), TotalLength(entries);
      var rest := bytes[n..];
      assert bytes[..total][..n] == bytes[..n] && bytes[..total][n..] == rest[..total - n];
      assert rest[total - n..total - n + 2 * BLOCK_SIZE] == bytes[total..total + 2 * BLOCK_SIZE];
      if ReadableEntry(policy, entries[0]) {
        EntryReads(policy, machine, position, bytes, sequence, entries[0]);
        EntriesDecode(policy, machine.(format := Some(PaxFormat)), position + n, entries[1..], sequence + 1, rest);
        ReadableRest(policy, entries);
      } else {
        EntryRefused(policy, machine, position, bytes, sequence, entries[0]);
        FailureDecodes(policy, NextMember(machine, NO_ASSEMBLY, position, bytes),
                       NextMember(machine, NO_ASSEMBLY, position, bytes).error);
      }
    }
  }

  lemma BoundaryKept(m: Machine, a: Assembly)
    requires AtPaxBoundary(m, a)
    ensures AtPaxBoundary(m.(format := Some(PaxFormat)), a) && m.state.AwaitingHeader?
  {
  }

  lemma EntriesUnfold(sequence: nat, entries: seq<Entry>, bytes: seq<Byte>)
    requires EntriesWritten(sequence, entries, bytes)
    ensures entries == [] ==> TotalLength(entries) == 0
    ensures entries != [] ==>
              && TotalLength(entries) == EntryLength(entries[0]) + TotalLength(entries[1..])
              && sequence < U64_LIMIT && EntryLength(entries[0]) <= |bytes|
              && EntryWritten(sequence, entries[0], bytes[..EntryLength(entries[0])])
              && EntriesWritten(sequence + 1, entries[1..], bytes[EntryLength(entries[0])..])
  {
    hide EntryWritten, EntryLength;
  }

  lemma ReadBackUnfolds(entries: seq<Entry>, position: nat)
    requires position + TotalLength(entries) < U64_LIMIT
    ensures entries == [] ==> ReadBack(entries, position) == []
    ensures entries != [] ==>
              var e := entries[0];
              && position + EntryLength(e) + TotalLength(entries[1..]) < U64_LIMIT
              && FramedLength(e.member) <= EntryLength(e) && BLOCK_SIZE <= FramedLength(e.member)
              && ReadBack(entries, position) ==
                 [Decoded(DecodedMember(e.member, position + FramedLength(e.member) - BLOCK_SIZE), e.payload)]
                 + ReadBack(entries[1..], position + EntryLength(e))
  {
    hide DecodedMember;
  }

  lemma ReadableRest(policy: DecodePolicy, entries: seq<Entry>)
    requires entries != [] && ReadableEntry(policy, entries[0])
    ensures AllReadable(policy, entries) <==> AllReadable(policy, entries[1..])
  {
    hide ReadableEntry;
    assert forall i :: 0 < i < |entries| ==> entries[i] == entries[1..][i - 1];
    if AllReadable(policy, entries[1..]) {
      forall i | 0 <= i < |entries| ensures ReadableEntry(policy, entries[i]) {
        if i > 0 { assert entries[i] == entries[1..][i - 1]; }
      }
    }
  }

  /**
   * The archive law: what is written for valid entries, behind it the end marker and then anything, decodes to
   * exactly those entries under every policy whose extension limit their records keep, and under no other.
   */
  lemma ArchiveRoundTrip(policy: DecodePolicy, entries: seq<Entry>, written: seq<Byte>, trailing: seq<Byte>)
    requires AllValid(entries) && EntriesWritten(0, entries, written) && |written| + 2 * BLOCK_SIZE < U64_LIMIT
    ensures TotalLength(entries) < U64_LIMIT
    ensures DecodeArchive(policy, written + END_MARKER + trailing) ==
            if AllReadable(policy, entries) then Some(ReadBack(entries, 0)) else None
  {
    hide NextMember, DecodeFrom, EntriesWritten, ReadBack, ReadableEntry, TotalLength, ValidEntry;
    EntriesFill(0, entries, written);
    var bytes := written + END_MARKER + trailing;
    assert bytes[..|written|] == written && bytes[|written|..|written| + 2 * BLOCK_SIZE] == END_MARKER;
    EntriesDecode(policy, Start(StreamPolicyOf(policy)), 0, entries, 0, bytes);
  }

  /** The default policy reads back every archive whose records take at most 256 KiB per member. */
  lemma DefaultRoundTrip(entries: seq<Entry>, written: seq<Byte>, trailing: seq<Byte>)
    requires AllValid(entries) && EntriesWritten(0, entries, written) && |written| + 2 * BLOCK_SIZE < U64_LIMIT
    requires forall i :: 0 <= i < |entries| ==> |RecordsBytes(MemberRecords(entries[i].member))| <= 256 * 1024
    ensures TotalLength(entries) < U64_LIMIT
    ensures DecodeArchive(DEFAULT_DECODE_POLICY, written + END_MARKER + trailing) == Some(ReadBack(entries, 0))
  {
    hide DecodeArchive, EntriesWritten, ReadBack, TotalLength, AllValid;
    ArchiveRoundTrip(DEFAULT_DECODE_POLICY, entries, written, trailing);
  }
}
