/** Building an archive: path collisions, poisoning, and the output that every active state stands for. */
module Builder {
  import opened Octets
  import opened Framing
  import opened Source
  import opened Write
  import opened FilePayload
  import opened Archive
  import opened Encode
  import opened BuildEntries
  import opened Components
  import opened ComponentTree
  import Decode

  datatype BuildError =
    | Poisoned
    | InvalidArchivePath
    | NameRejected(value: Text)
    | PathCollision(prefix: seq<Byte>)
    | FilePayloadAlreadyRead
    | HookError(failure: HookFailure)
    | SourceError
    | TraversalError

  /** How an awaited call on the builder ends; a dropped one was abandoned at a stall. */
  datatype BuildResult = Done | Refused(error: BuildError) | Dropped

  /** What a directory traversal hands over, in order: entries ready to write, or a source that failed. */
  datatype Prepared =
    | PreparedDirectory(path: Text)
    | BufferedFile(path: Text, bytes: seq<Byte>, executable: bool)
    | StreamingFile(path: Text, size: U64, available: seq<Byte>, executable: bool)
    | PreparedSymbolicLink(path: Text, target: Text)
    | PreparationFailed

  function KindEntry(m: PaxMember): ArchivedEntry
  {
    if m.kind == Directory then DirectoryEntry(true) else NonDirectory
  }

  function LogOf(entries: seq<Entry>): (log: seq<Committed>)
    ensures |log| == |entries|
  {
    seq(|entries|, i requires 0 <= i < |entries| => Committed(SplitPath(entries[i].member.path), KindEntry(entries[i].member)))
  }

  lemma LogOfMore(entries: seq<Entry>, e: Entry)
    ensures LogOf(entries + [e]) == LogOf(entries) + [Committed(SplitPath(e.member.path), KindEntry(e.member))]
  {
  }

  class Builder {
    const backend: TarEncoder
    const entries: BuildEntries
    const accepts: Text -> bool
    var sourceBuffer: seq<Byte>
    var poisoned: bool
    /** The entries whose members are completely in the output. */
    ghost var committed: seq<Entry>

    /** The output is exactly the committed entries, the sequence counts them, and the index records them. */
    ghost predicate WellFormed()
      reads this, backend, backend.writer, entries
    {
      && EntriesWritten(0, committed, backend.writer.written) && AllValid(committed)
      && backend.sequence == |committed|
      && entries.log == LogOf(committed)
    }

    ghost predicate Valid()
      reads this, backend, backend.writer, backend.framingBuffer, entries, entries.tree
    {
      && entries.Valid()
      && (!poisoned ==> WellFormed())
    }

    constructor (writer: ByteSink, accepts: Text -> bool)
      requires writer.written == []
      ensures Valid() && !poisoned && committed == [] && backend.writer == writer
      ensures fresh(backend) && fresh(backend.framingBuffer) && fresh(entries) && fresh(entries.tree)
    {
      backend := new TarEncoder(writer);
      entries := new BuildEntries();
      this.accepts := accepts;
      sourceBuffer, poisoned, committed := [], false, [];
    }

    /** Why an entry is turned away before anything is written. */
    ghost predicate NotAdmitted(path: seq<Byte>, entry: ArchivedEntry, e: BuildError)
      reads this, entries
    {
      match e
      case Poisoned => poisoned
      case InvalidArchivePath => !ValidUtf8(path)
      case NameRejected(value) => value == path && ValidUtf8(path) && !accepts(path)
      case PathCollision(prefix) => prefix <= path && !Compatible(entries.log, SplitPath(path), entry)
      case _ => false
    }

    /** The checks before anything is written: the builder is active, the name is acceptable, the path is free. */
    method Preflight(path: seq<Byte>, entry: ArchivedEntry) returns (error: Option<BuildError>)
      requires Valid()
      ensures error == Some(Poisoned) <==> poisoned
      ensures error.None? ==>
                !poisoned && ValidUtf8(path) && accepts(path) && Compatible(entries.log, SplitPath(path), entry)
      ensures error.Some? ==> NotAdmitted(path, entry, error.value)
    {
      hide Compatible, BuildEntries.Valid, SplitPath, JoinPath, ValidUtf8, EntriesWritten, AllValid, LogOf;
      if poisoned {
        return Some(Poisoned);
      }
      if !ValidUtf8(path) {
        return Some(InvalidArchivePath);
      }
      if !accepts(path) {
        return Some(NameRejected(path));
      }
      var collision := entries.PreflightEntry(SplitPath(path), entry);
      if collision.Some? {
        JoinedPrefix(SplitPath(path), collision.value);
        SplitJoins(path);
        return Some(PathCollision(JoinPath(SplitPath(path)[..collision.value])));
      }
      return None;
    }

    /** Clears or keeps the provisional poison once the hook has come back; commits what it wrote. */
    method Resolve(result: HookResult, path: Text, entry: ArchivedEntry, ghost before: seq<Byte>, ghost sequenceBefore: U64, ghost e: Entry)
      returns (r: BuildResult)
      requires entries.Valid() && poisoned && Compatible(entries.log, SplitPath(path), entry)
      requires EntriesWritten(0, committed, before) && AllValid(committed) && sequenceBefore == |committed|
      requires entries.log == LogOf(committed)
      requires result.HookDone? ==> backend.EntryAdded(before, sequenceBefore, e) && e.member.path == path && KindEntry(e.member) == entry
      requires result.HookFailed? && !Poisons(result.failure) ==> backend.writer.written == before && backend.sequence == sequenceBefore
      modifies this`poisoned, this`committed, entries, entries.tree
      ensures Valid()
      ensures r.Done? <==> result.HookDone?
      ensures r.Done? ==> !poisoned && committed == old(committed) + [e]
      ensures !r.Done? ==> committed == old(committed)
      ensures r.Refused? && !poisoned ==> backend.writer.written == before
      ensures r.Dropped? ==> poisoned
      ensures r.Refused? ==> result.HookFailed? && r.error == HookError(result.failure) && (poisoned <==> Poisons(result.failure))
    {
      hide Compatible, BuildEntries.Valid, EntryWritten, ValidEntry;
      match result
      case HookDropped => return Dropped;
      case HookFailed(failure) =>
        poisoned := Poisons(failure);
        return Refused(HookError(failure));
      case HookDone =>
        CommitWritten(path, entry, before, e);
        poisoned := false;
        return Done;
    }

    /** Records an entry that is completely in the output. */
    method CommitWritten(path: Text, entry: ArchivedEntry, ghost before: seq<Byte>, ghost e: Entry)
      requires entries.Valid() && Compatible(entries.log, SplitPath(path), entry)
      requires EntriesWritten(0, committed, before) && AllValid(committed)
      requires entries.log == LogOf(committed) && |committed| < U64_LIMIT
      requires backend.EntryAdded(before, |committed|, e) && e.member.path == path && KindEntry(e.member) == entry
      modifies this`committed, entries, entries.tree
      ensures entries.Valid() && WellFormed() && committed == old(committed) + [e]
    {
      hide Compatible, BuildEntries.Valid, EntryWritten, ValidEntry, LogOf, EntriesWritten, SplitPath;
      entries.CommitEntry(SplitPath(path), entry);
      EntriesExtended(0, committed, before, e, backend.writer.written);
      LogOfMore(committed, e);
      committed := committed + [e];
    }

    /**
     * Adds a file. A refusal leaves the archive as it was unless it poisons the builder; dropping the call
     * always does.
     */
    method AddFile(path: seq<Byte>, payload: FilePayload, executable: bool, patience: nat) returns (r: BuildResult)
      requires Valid() && payload.Valid()
      modifies this`poisoned, this`committed, this`sourceBuffer, backend`sequence, backend.framingBuffer, backend.writer,
               entries, entries.tree, payload, if payload.source == null then {} else {payload.source}
      ensures Valid()
      ensures old(poisoned) ==> r == Refused(Poisoned) && backend.writer.written == old(backend.writer.written)
      ensures r.Done? ==>
                && !poisoned && ValidUtf8(path) && payload.size <= |payload.content|
                && committed == old(committed)
                   + [Entry(PaxMember(path, Regular, payload.size, None, executable), payload.content[..payload.size])]
      ensures !r.Done? ==> committed == old(committed)
      ensures r.Refused? && !poisoned ==> backend.writer.written == old(backend.writer.written)
      ensures r.Dropped? ==> poisoned
      ensures r.Refused? ==>
                match r.error
                case HookError(f) =>
                  && ValidUtf8(path) && Explains(f, old(backend.sequence), PaxMember(path, Regular, payload.size, None, executable))
                  && (f == PayloadFailure(SourceEndedEarly) ==> |payload.content| < payload.size)
                  && (poisoned <==> Poisons(f))
                case FilePayloadAlreadyRead => old(payload.started)
                case e => old(NotAdmitted(path, NonDirectory, e))
    {
      hide Compatible, BuildEntries.Valid, EntryWritten, ValidEntry, FilePayload.Valid, EntriesWritten, AllValid, LogOf, Explains,
           SplitPath, ValidUtf8, Poisons;
      ghost var before, sequence := backend.writer.written, backend.sequence;
      var error := Preflight(path, NonDirectory);
      if error.Some? {
        return Refused(error.value);
      }
      if payload.started {
        return Refused(FilePayloadAlreadyRead);
      }
      NotStarted(payload);
      sourceBuffer := payload.SwapBuffer(sourceBuffer);
      poisoned := true;
      var result := backend.WriteFileMember(path, payload, executable, patience);
      if !result.HookDropped? {
        sourceBuffer := payload.SwapBuffer(sourceBuffer);
      }
      ghost var m := PaxMember(path, Regular, payload.size, None, executable);
      r := Resolve(result, path, NonDirectory, before, sequence,
                   Entry(m, if payload.size <= |payload.content| then payload.content[..payload.size] else []));
    }

    method AddDirectory(path: seq<Byte>, patience: nat) returns (r: BuildResult)
      requires Valid()
      modifies this`poisoned, this`committed, backend`sequence, backend.framingBuffer, backend.writer, entries, entries.tree
      ensures Valid()
      ensures old(poisoned) ==> r == Refused(Poisoned) && backend.writer.written == old(backend.writer.written)
      ensures r.Done? ==>
                !poisoned && ValidUtf8(path) && committed == old(committed) + [Entry(PaxMember(path, Directory, 0, None, false), [])]
      ensures !r.Done? ==> committed == old(committed)
      ensures r.Refused? && !poisoned ==> backend.writer.written == old(backend.writer.written)
      ensures r.Dropped? ==> poisoned
      ensures r.Refused? ==>
                match r.error
                case HookError(f) =>
                  && ValidUtf8(path) && Explains(f, old(backend.sequence), PaxMember(path, Directory, 0, None, false))
                  && (poisoned <==> Poisons(f))
                case e => old(NotAdmitted(path, DirectoryEntry(true), e))
    {
      hide Compatible, BuildEntries.Valid, EntryWritten, ValidEntry, EntriesWritten, AllValid, LogOf, Explains;
      ghost var before, sequence := backend.writer.written, backend.sequence;
      var error := Preflight(path, DirectoryEntry(true));
      if error.Some? {
        return Refused(error.value);
      }
      poisoned := true;
      var result := backend.WriteDirectoryMember(path, patience);
      r := Resolve(result, path, DirectoryEntry(true), before, sequence, Entry(PaxMember(path, Directory, 0, None, false), []));
    }

    /** Writes one prepared entry during a traversal; the builder stays provisionally poisoned. */
    method WritePrepared(item: Prepared, patience: nat) returns (step: BatchStep)
      requires entries.Valid() && WellFormed()
      requires item.BufferedFile? ==> |item.bytes| < U64_LIMIT
      modifies this`committed, backend`sequence, backend.framingBuffer, backend.writer, entries, entries.tree
      ensures entries.Valid()
      ensures step.StepDone? ==> WellFormed() && !item.PreparationFailed? && committed == old(committed) + [EntryOf(item)]
      ensures !step.StepDone? ==> committed == old(committed)
      ensures step.StepFailed? && !step.poisons ==> WellFormed() && backend.writer.written == old(backend.writer.written)
      ensures step.StepFailed? ==>
                && ItemRefused(committed, item, step.error)
                && (step.poisons <==> step.error.HookError? && Poisons(step.error.failure))
    {
      hide Compatible, BuildEntries.Valid, EntryWritten, ValidEntry, FilePayload.Valid, EntriesWritten, AllValid, LogOf, SplitPath,
           Explains;
      if item.PreparationFailed? {
        return StepFailed(SourceError, false);
      }
      ghost var before, sequence := backend.writer.written, backend.sequence;
      var entry := if item.PreparedDirectory? then DirectoryEntry(true) else NonDirectory;
      var collision := entries.PreflightEntry(SplitPath(item.path), entry);
      if collision.Some? {
        JoinedPrefix(SplitPath(item.path), collision.value);
        SplitJoins(item.path);
        return StepFailed(PathCollision(JoinPath(SplitPath(item.path)[..collision.value])), false);
      }
      var result := WriteItem(item, patience);
      match result
      case HookDropped => return StepDropped;
      case HookFailed(failure) => return StepFailed(HookError(failure), Poisons(failure));
      case HookDone =>
        CommitWritten(item.path, entry, before, EntryOf(item));
        return StepDone;
    }

    /** The member of one prepared entry. */
    method WriteItem(item: Prepared, patience: nat) returns (result: HookResult)
      requires !item.PreparationFailed? && (item.BufferedFile? ==> |item.bytes| < U64_LIMIT)
      modifies backend`sequence, backend.framingBuffer, backend.writer
      ensures result.HookDone? ==> backend.EntryAdded(old(backend.writer.written), old(backend.sequence), EntryOf(item))
      ensures result.HookFailed? && !Poisons(result.failure) ==>
                backend.writer.written == old(backend.writer.written) && backend.sequence == old(backend.sequence)
      ensures result.HookFailed? ==> Explains(result.failure, old(backend.sequence), EntryOf(item).member)
      ensures result == HookFailed(PayloadFailure(SourceEndedEarly)) ==> item.StreamingFile? && |item.available| < item.size
    {
      hide EntryWritten, ValidEntry, FilePayload.Valid, Explains;
      match item
      case PreparedDirectory(path) => result := backend.WriteDirectoryMember(path, patience);
      case PreparedSymbolicLink(path, target) => result := backend.WriteSymbolicLinkMember(path, target, patience);
      case BufferedFile(path, bytes, executable) =>
        var payload := BufferedPayload(bytes);
        assert bytes[..|bytes|] == bytes;
        result := backend.WriteFileMember(path, payload, executable, patience);
      case StreamingFile(path, size, available, executable) =>
        var payload := StreamingPayload(size, available);
        result := backend.WriteFileMember(path, payload, executable, patience);
    }

    /**
     * Adds everything a traversal hands over. A failure poisons the builder if anything was written first,
     * and otherwise leaves the archive as it was.
     */
    method AddDirectoryAll(items: seq<Prepared>, traversalFails: bool, patience: nat) returns (r: BuildResult)
      requires Valid() && forall i :: 0 <= i < |items| && items[i].BufferedFile? ==> |items[i].bytes| < U64_LIMIT
      modifies this`poisoned, this`committed, backend`sequence, backend.framingBuffer, backend.writer, entries, entries.tree
      ensures Valid()
      ensures old(poisoned) ==> r == Refused(Poisoned) && backend.writer.written == old(backend.writer.written)
      ensures r.Done? ==> !poisoned && !traversalFails && committed == old(committed) + EntriesOf(items)
      ensures r.Refused? && !poisoned ==>
                committed == old(committed) && backend.writer.written == old(backend.writer.written)
      ensures r.Dropped? ==> poisoned
      ensures r == Refused(Poisoned) ==> old(poisoned)
      ensures r == Refused(TraversalError) ==>
                traversalFails && committed == old(committed) + EntriesOf(items) && (poisoned <==> items != [])
      ensures r.Refused? && r.error != TraversalError && !old(poisoned) ==>
                exists i :: 0 <= i < |items| && RefusedAt(old(committed), committed, items, i, r.error, poisoned)
    {
      hide Compatible, BuildEntries.Valid, EntriesWritten, AllValid, LogOf, EntryOf, Explains;
      if poisoned {
        return Refused(Poisoned);
      }
      poisoned := true;
      var emitted := false;
      assert committed == old(committed) + EntriesOf(items[..0]);
      for i := 0 to |items|
        invariant poisoned && entries.Valid() && WellFormed()
        invariant committed == old(committed) + EntriesOf(items[..i])
        invariant (emitted <==> i > 0) && poisoned
        invariant !emitted ==> backend.writer.written == old(backend.writer.written)
      {
        var step := WritePrepared(items[i], patience);
        match step
        case StepDone =>
          EntriesOfMore(items, i);
          emitted := true;
        case StepDropped => return Dropped;
        case StepFailed(error, poisons) =>
          poisoned := emitted || poisons;
          assert RefusedAt(old(committed), committed, items, i, error, poisoned);
          return Refused(error);
      }
      assert items[..|items|] == items;
      if traversalFails {
        poisoned := emitted;
        return Refused(TraversalError);
      }
      poisoned := false;
      return Done;
    }

    /** Completes the archive. */
    method FinishIntoInner(patience: nat) returns (r: BuildResult)
      requires Valid()
      modifies this`poisoned, backend.writer
      ensures r.Done? ==>
                && AllValid(committed) && EntriesWritten(0, committed, old(backend.writer.written))
                && backend.writer.written == old(backend.writer.written) + END_MARKER
      ensures old(poisoned) ==> r == Refused(Poisoned) && backend.writer.written == old(backend.writer.written)
      ensures r.Refused? && !old(poisoned) ==> poisoned && r.error == HookError(EncoderFailure(WriterFailed, true))
    {
      if poisoned {
        return Refused(Poisoned);
      }
      var result := backend.FinishArchive(patience);
      match result
      case HookDone => return Done;
      case HookDropped => return Dropped;
      case HookFailed(failure) =>
        poisoned := Poisons(failure);
        return Refused(HookError(failure));
    }
  }

  datatype BatchStep = StepDone | StepFailed(error: BuildError, poisons: bool) | StepDropped

  /** The archive entry a prepared one becomes. */
  ghost function EntryOf(item: Prepared): Entry
  {
    match item
    case PreparedDirectory(path) => Entry(PaxMember(path, Directory, 0, None, false), [])
    case PreparedSymbolicLink(path, target) => Entry(PaxMember(path, SymbolicLink, 0, Some(target), false), [])
    case BufferedFile(path, bytes, executable) => Entry(PaxMember(path, Regular, |bytes| % U64_LIMIT, None, executable), bytes)
    case StreamingFile(path, size, available, executable) =>
      Entry(PaxMember(path, Regular, size, None, executable), available[..Min(size, |available|)])
    case PreparationFailed => Entry(PaxMember([], Fifo, 0, None, false), [])
  }

  /** Why a traversal's entry is refused, when `committed` entries are in the archive before it. */
  ghost predicate ItemRefused(committed: seq<Entry>, item: Prepared, e: BuildError)
  {
    match e
    case SourceError => item.PreparationFailed?
    case PathCollision(prefix) =>
      && !item.PreparationFailed? && prefix <= item.path
      && !Compatible(LogOf(committed), SplitPath(item.path), KindEntry(EntryOf(item).member))
    case HookError(f) =>
      && !item.PreparationFailed? && |committed| < U64_LIMIT && Explains(f, |committed|, EntryOf(item).member)
      && (f == PayloadFailure(SourceEndedEarly) ==> item.StreamingFile? && |item.available| < item.size)
    case _ => false
  }

  /** The entries before item `i` were committed; that item was refused, and whether this poisons the builder. */
  ghost predicate RefusedAt(
      before: seq<Entry>, committed: seq<Entry>, items: seq<Prepared>, i: nat, e: BuildError, poisoned: bool)
    requires i < |items|
  {
    && committed == before + EntriesOf(items[..i]) && ItemRefused(committed, items[i], e)
    && (poisoned <==> i > 0 || (e.HookError? && Poisons(e.failure)))
  }

  ghost function EntriesOf(items: seq<Prepared>): (entries: seq<Entry>)
    ensures |entries| == |items|
  {
    seq(|items|, i requires 0 <= i < |items| => EntryOf(items[i]))
  }

  lemma EntriesOfMore(items: seq<Prepared>, i: nat)
    requires i < |items|
    ensures EntriesOf(items[..i + 1]) == EntriesOf(items[..i]) + [EntryOf(items[i])]
  {
    hide EntryOf;
  }

  lemma NotStarted(payload: FilePayload)
    requires payload.Valid() && !payload.started
    ensures payload.delivered == [] && (payload.source != null ==> payload.filled == 0)
  {
  }

  /** A finished archive decodes to the committed entries under every policy that allows their records. */
  lemma FinishedArchiveDecodes(policy: Decode.DecodePolicy, committed: seq<Entry>, output: seq<Byte>)
    requires AllValid(committed) && |output| < U64_LIMIT
    requires exists written :: EntriesWritten(0, committed, written) && output == written + END_MARKER
    ensures TotalLength(committed) < U64_LIMIT
    ensures Decode.DecodeArchive(policy, output) ==
            if AllReadable(policy, committed) then Some(ReadBack(committed, 0)) else None
  {
    hide EntriesWritten, ReadBack, TotalLength, Decode.DecodeArchive, AllReadable, AllValid;
    var written :| EntriesWritten(0, committed, written) && output == written + END_MARKER;
    assert written + END_MARKER + [] == output;
    ArchiveRoundTrip(policy, committed, written, []);
  }

  /** One more whole entry at the end of the output. */
  lemma {:induction false} EntriesExtended(sequence: nat, entries: seq<Entry>, before: seq<Byte>, e: Entry, after: seq<Byte>)
    requires EntriesWritten(sequence, entries, before) && before <= after && sequence + |entries| < U64_LIMIT
    requires EntryWritten(sequence + |entries|, e, after[|before|..])
    ensures EntriesWritten(sequence, entries + [e], after)
    decreases |entries|
  {
    hide EntryWritten, EntryLength;
    if entries == [] {
      assert after[|before|..] == after && [] + [e] == [e];
      EntrySize(sequence, e, after);
      assert after[..EntryLength(e)] == after && after[EntryLength(e)..] == [] && [e][1..] == [];
    } else {
      var n := EntryLength(entries[0]);
      var rest, more := before[n..], after[n..];
      AfterFirst(before, after, n);
      EntriesExtended(sequence + 1, entries[1..], rest, e, more);
      assert (entries + [e])[1..] == entries[1..] + [e];
    }
  }

  lemma AfterFirst(before: seq<Byte>, after: seq<Byte>, n: nat)
    requires before <= after && n <= |before|
    ensures before[n..] <= after[n..] && after[n..][|before[n..]|..] == after[|before|..] && after[..n] == before[..n]
  {
  }

  lemma EntrySize(sequence: U64, e: Entry, bytes: seq<Byte>)
    requires EntryWritten(sequence, e, bytes)
    ensures |bytes| == EntryLength(e)
  {
  }
}
