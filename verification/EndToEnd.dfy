/** From entries to archive bytes, back to members, and onto the disk. */
module EndToEnd {
  import opened Octets
  import opened Components
  import opened Disk
  import opened Extraction
  import opened Effects
  import opened Links
  import opened Extract
  import opened Archive
  import opened Decode
  import Framing
  import Write

  /** Decoded members with their whole payloads. */
  function Arrivals(decoded: seq<Decoded>): (arrivals: seq<Arrival>)
    ensures |arrivals| == |decoded|
    ensures forall i :: 0 <= i < |arrivals| ==> arrivals[i] == Arrival(decoded[i].member, Payload(decoded[i].payload, false))
  {
    seq(|decoded|, i requires 0 <= i < |decoded| => Arrival(decoded[i].member, Payload(decoded[i].payload, false)))
  }

  /** The member an entry decodes to, wherever its header stands. */
  ghost predicate Restores(e: Entry, x: Decoded)
  {
    && x.payload == e.payload
    && exists position: U64 :: x.member == DecodedMember(e.member, position)
  }

  lemma {:induction false} ReadBackRestores(entries: seq<Entry>, position: nat)
    requires position + TotalLength(entries) < U64_LIMIT
    ensures |ReadBack(entries, position)| == |entries|
    ensures forall i :: 0 <= i < |entries| ==> Restores(entries[i], ReadBack(entries, position)[i])
    decreases |entries|
  {
    hide DecodedMember, EntryLength, Write.FramedLength, ReadBack, TotalLength;
    ReadBackUnfolds(entries, position);
    if entries != [] {
      var e := entries[0];
      ReadBackRestores(entries[1..], position + EntryLength(e));
      var first := Decoded(DecodedMember(e.member, position + Write.FramedLength(e.member) - BLOCK_SIZE), e.payload);
      assert Restores(e, first);
      var rest := ReadBack(entries[1..], position + EntryLength(e));
      assert ReadBack(entries, position) == [first] + rest;
      forall i | 0 <= i < |entries| ensures Restores(entries[i], ReadBack(entries, position)[i]) {
        if i > 0 { assert entries[i] == entries[1..][i - 1] && ReadBack(entries, position)[i] == rest[i - 1]; }
      }
    }
  }

  /** What was archived, as it arrives to be extracted. */
  function Restored(policy: DecodePolicy, bytes: seq<Byte>): (arrivals: seq<Arrival>)
    requires DecodeArchive(policy, bytes).Some?
  {
    hide DecodeArchive;
    Arrivals(DecodeArchive(policy, bytes).value)
  }

  /** An archive as the writer makes it, and anything behind it. */
  ghost predicate Archived(policy: DecodePolicy, entries: seq<Entry>, bytes: seq<Byte>)
  {
    hide ValidEntry, EntriesWritten, ReadableEntry;
    && AllValid(entries) && AllReadable(policy, entries)
    && exists written, trailing :: |written| + 2 * BLOCK_SIZE < U64_LIMIT && EntriesWritten(0, entries, written)
                                   && bytes == written + Write.END_MARKER + trailing
  }

  /** Each entry arrives as the member it was written from, with its payload. */
  lemma ArchivedArrives(policy: DecodePolicy, entries: seq<Entry>, bytes: seq<Byte>)
    requires Archived(policy, entries, bytes)
    ensures DecodeArchive(policy, bytes).Some?
    ensures var arrivals := Restored(policy, bytes);
            && AllArrive(arrivals) && |arrivals| == |entries|
            && forall i :: 0 <= i < |entries| ==>
                 arrivals[i].payload == Payload(entries[i].payload, false) && ArrivesAs(entries[i].member, arrivals[i].member)
  {
    hide DecodeArchive, EntriesWritten, ReadBack, TotalLength, ReadableEntry, Restores, ValidEntry;
    var written, trailing :| |written| + 2 * BLOCK_SIZE < U64_LIMIT && EntriesWritten(0, entries, written)
                             && bytes == written + Write.END_MARKER + trailing;
    ArchiveRoundTrip(policy, entries, written, trailing);
    ReadBackRestores(entries, 0);
    forall i | 0 <= i < |entries|
      ensures ArrivesAs(entries[i].member, ReadBack(entries, 0)[i].member) && ReadBack(entries, 0)[i].payload == entries[i].payload
      ensures ArrivalValid(Arrival(ReadBack(entries, 0)[i].member, Payload(ReadBack(entries, 0)[i].payload, false)))
    {
      RestoredMember(entries[i], ReadBack(entries, 0)[i]);
    }
  }

  /** The same kind of member, with the same path, text and executable bit. */
  predicate ArrivesAs(m: Write.PaxMember, x: Member)
  {
    && x.path == m.path
    && match m.kind
       case Directory => x.DirectoryMember?
       case SymbolicLink => x.SymbolicLinkMember? && Some(x.target) == m.linkPath
       case _ => x.FileMember? && x.size == m.size && x.executable == m.executable
  }

  lemma RestoredMember(e: Entry, x: Decoded)
    requires ValidEntry(e) && Restores(e, x)
    ensures ArrivesAs(e.member, x.member) && x.payload == e.payload && ArrivalValid(Arrival(x.member, Payload(x.payload, false)))
  {
    hide Write.ValidateMember, ValidUtf8;
    Write.ValidMembers(e.member);
  }

  /** No later entry has the same place. */
  predicate LastEntry(entries: seq<Entry>, i: nat)
    requires i < |entries|
  {
    forall j :: i < j < |entries| ==> Names(SplitPath(entries[j].member.path)) != Names(SplitPath(entries[i].member.path))
  }

  /** Nothing in a written archive rewrites a file through another name. */
  lemma WrittenLast(d: DiskState, policy: ExtractPolicy, entries: seq<Entry>, arrivals: seq<Arrival>, i: nat)
    requires AllArrive(arrivals) && |arrivals| == |entries| && i < |entries| && LastEntry(entries, i)
    requires forall j :: 0 <= j < |entries| ==> ArrivesAs(entries[j].member, arrivals[j].member)
    ensures LastAt(policy, arrivals, i, PathOf(arrivals[i].member)) && NotRewritten(d, policy, arrivals, i, PathOf(arrivals[i].member))
    ensures PathOf(arrivals[i].member) == Names(SplitPath(entries[i].member.path))
  {
    hide SplitPath, Names, ExtractMembers;
    assert forall j :: 0 <= j < |entries| ==> ArrivesAs(entries[j].member, arrivals[j].member) && !arrivals[j].member.HardLinkMember?;
  }

  /** What was put in stands at its place on the disk. */
  predicate StandsAs(after: DiskState, e: Entry, preserved: bool)
  {
    var m, p := e.member, Names(SplitPath(e.member.path));
    && (m.kind == Framing.Regular ==> FileAt(after, p) == Some(FileData(e.payload, m.executable)))
    && (m.kind == Framing.Directory ==> IsDirectory(after, p))
    && (m.kind == Framing.SymbolicLink && preserved ==>
          p in after.nodes && m.linkPath.Some? && after.nodes[p] == LinkNode(m.linkPath.value))
  }

  /**
   * Archived and extracted again: where extraction of an archive goes through, the last entry for a path is there as
   * it was put in, a file with its bytes and its executable bit, a directory as one, a preserved link with its text.
   */
  lemma ArchivedIsExtracted(
      decoding: DecodePolicy, entries: seq<Entry>, bytes: seq<Byte>, d: DiskState, policy: ExtractPolicy, inspect: Inspection, i: nat)
    requires Archived(decoding, entries, bytes) && DiskValid(d) && i < |entries| && LastEntry(entries, i)
    requires DecodeArchive(decoding, bytes).Some? && AllArrive(Restored(decoding, bytes))
    requires ExtractArchive(d, policy, inspect, Restored(decoding, bytes)).Going?
    ensures StandsAs(ExtractArchive(d, policy, inspect, Restored(decoding, bytes)).world.disk, entries[i], policy.symlinks == Preserve)
  {
    hide DecodeArchive, Archived, DiskValid, ExtractArchive, FileAt, LastAt, NotRewritten, Restored, AllArrive;
    ArchivedArrives(decoding, entries, bytes);
    var arrivals := Restored(decoding, bytes);
    WrittenLast(d, policy, entries, arrivals, i);
    match arrivals[i].member
    case FileMember(_, _, _, _) => LastFileExtracted(d, policy, inspect, arrivals, i);
    case DirectoryMember(_, _) => LastDirectoryExtracted(d, policy, inspect, arrivals, i);
    case SymbolicLinkMember(_, _, _) => if policy.symlinks == Preserve { LastSymlinkExtracted(d, policy, inspect, arrivals, i); }
    case _ =>
  }
}
