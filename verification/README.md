# Verified model of the tar codec

This project models three connected parts of the tar workspace and proves, for all inputs and all runs, what each is for.

**Framing.** `TarStream` is a nine-state machine over 512-byte blocks. `Framing` states the machine as a pure step, the class
`TarStream.TarStream` keeps the source's own fields (partial block, member chunk, global records) and refines it over any
splitting of reads. `Grammar` proves that a run over blocks is a reading of whole headers and payloads, and `Derivation` that
a run completes on exactly the language of well-formed groups of frames, a definition that mentions no machine. `Logical` adds the member reader with its second copy of the global
records and its own counters, and proves that the two machines never disagree. `Numbers`, `Header`, `PaxRecords`, `Pax` and
`Write` hold the field codecs, the header writer and the self-counting pax records. `RoundTrip` and `Archive` join
both directions: written archives decode to what was written. `Decode` and `Codec` are the decode policy and the fused reader.
`Layout` says what stands where in a header block of either family without a reader, `Groups` and `PaxGroups` what a GNU or pax
member is block by block, and `Values` what a record's text means; reading is proved to find exactly that.

**Building.** `ComponentTree` is the arena of path components, `BuildEntries` the collision index on it, `FilePayload` the
exact-size resumable payload, `Encode` the member writer and `Builder` the poisoning rules. The invariant is that the output
of a builder that is not poisoned is always exactly its committed entries.

**Extracting.** `Disk` is an abstract file tree with inodes and directory handles. `Extraction` says what one member does to
disk, owned paths and deferred links; `Conditions` says exactly when it succeeds and what it leaves unchanged, `Effects` what it
leaves on the disk. `ExtractionRoot` is the engine with the
source's arena, one-entry handle cache, delayed batch and symlink list; it keeps the pure outcome in a ghost field `now` and
proves that after any members, with any batch limits, it stands where one-at-a-time extraction does. `Links` treats lexical
link resolution as a rewriting relation, proves the bounded evaluator right about it, and proves that it agrees with a walk of
the raw link text over the finished disk. The walk follows as many links as the evaluator rewrites, up to 256; systems
that give up after fewer hops report an error on longer chains. `Paths` relates the string form of normalized paths to component
sequences. `Extract` carries all of it to decoded members and whole archives, `Fresh` shows that archives which do not contradict
themselves always extract onto an empty destination, and `EndToEnd` goes from entries to archive bytes and onto the disk.

**Conventions.** An awaited operation is a sequence of polls. A poll may yield bytes, stall, fail or report the end;
a stalled method returns with its fields kept, and calling it again resumes, so a dropped call is one that is never
resumed. On the writing side `patience` counts the stalls waited out before the caller drops the call. Bytes are integers below 256,
64-bit values are `U64` with overflow checks written out, and UTF-8 validity is defined on byte sequences.

**Where code and documentation differ.** The documentation of chunk reads promises at least the target length unless the
payload ends. The code delivers a retained partial block, or the rest of a pending chunk, first and whatever its length.
`TarStream.TarStream.ReadMemberChunk` and the calls built on it state the exact length and exactly when the promise holds;
`TarStream.ShortChunkAfterStall` and `TarStream.RetainedBlockWitness` show it failing. The pax record writer accepts vendor
keywords that the reader takes apart differently; `RoundTrip.KeywordReadsBack` says exactly which.

## Model

| member | source | states |
|---|---|---|
| Numbers.DecimalU64 | crates/tar-framing/src/write.rs:406-437 | the buffer ends with the canonical decimal of any 64-bit value, whatever the number of digits, starting at the returned index |
| Numbers.DecimalU64Large | crates/tar-framing/src/write.rs:442-479 | the four-digits-at-a-time path writes that same canonical decimal and never runs off the front of the twenty bytes |
| Numbers.U64HasTwentyDigits | crates/tar-framing/src/write.rs:389-402 | no 64-bit value needs more than twenty digits, so the fixed buffers are long enough |
| Numbers.DecimalRoundTrip | crates/tar-framing/src/pax.rs:684-689 | parsing the canonical decimal of any 64-bit value gives the value back |
| Numbers.SelfCountingLengthIsLeast | crates/tar-framing/src/write.rs:273-301 | the digit estimate with one correction is a length that equals its own digit count plus the suffix, and no smaller length does, across every power of ten |
| Write.RecordLength | crates/tar-framing/src/write.rs:273-301 | the checked length is that least self-counting length, and it is refused exactly when it leaves the machine word |
| Numbers.EncodeOctal | crates/tar-framing/src/header.rs:112-138 | a field is filled if and only if the value fits the digits beside its suffix; the digits are the value's, and nothing outside the field changes |
| Numbers.ParseOctalField | crates/tar-framing/src/header.rs:139-155 | the one-pass loop with its flags accepts exactly the declarative field shape (octal prefix, terminators behind, no overflow) and returns that prefix's value |
| Numbers.OctalRoundTrip | crates/tar-framing/src/header.rs:112-155 | digits the encoder wrote, with any nonempty terminator, parse back to the value |
| Numbers.FitsOctalIsEncodable | crates/tar-framing/src/write.rs:356-358 | the writer's logarithm test agrees with the field encoder for every field length and value |
| Numbers.OctalReads | crates/tar-framing/src/header.rs:139-155 | an octal field is read as a number if and only if it is octal digits with that positional value, then only NULs and spaces, at least one of each |
| Numbers.Base256IsPositional | crates/tar-framing/src/header.rs:177-190 | the base-256 reader gives the big-endian value of its bytes, and nothing exactly when that leaves 64 bits |
| Numbers.GnuNumberReads | crates/tar-framing/src/header.rs:164-190 | a GNU number is read if and only if the field spells it in octal, or in base 256 behind the byte 128 |
| Header.EncodeChecksum | crates/tar-framing/src/header.rs:96-111 | storing the checksum changes the checksum field alone, always succeeds, and stores the sum computed before |
| Header.ChecksumIgnoresItsField | crates/tar-framing/src/header.rs:84-95 | whatever bytes are put into the checksum field, the checksum is the same |
| Header.ChecksumBound | crates/tar-framing/src/header.rs:84-111 | every block's checksum is at most 128776, which six octal digits hold |
| Header.ChecksumSurvives | crates/tar-framing/src/header.rs:96-155 | a stored checksum parses back to the checksum of the finished block that contains it |
| Header.FinishedHeaderLayout | crates/tar-framing/src/write.rs:317-354 | the field-by-field writes produce the ustar layout: every field holds what it should and no write disturbs another |
| Header.BuildHeaderInto | crates/tar-framing/src/write.rs:317-354 | a zeroed block becomes a header in the ustar layout, and it fails exactly when the size does not fit its field |
| PaxRecords.SplitRecordsIffPartitioned | crates/tar-framing/src/pax.rs:486-555 | on arbitrary bytes the splitter returns a list of records if and only if the payload is partitioned, with nothing left over, into records that state their own length |
| PaxRecords.RecordStatesItsLength | crates/tar-framing/src/write.rs:303-315 | a printed record is exactly as long as the number it begins with |
| PaxRecords.PrintSplitRoundTrip | crates/tar-framing/src/pax.rs:496-555 | printing any records with nonempty keywords without `=` and arbitrary values, then splitting from any offset, gives the same records |
| Pax.SplitPayload | crates/tar-framing/src/pax.rs:496-555 | the cursor loop ends, stays in range, and returns what the splitting specification says, errors included |
| Pax.ResolveCharset | crates/tar-framing/src/pax.rs:571-588 | one scan over the untyped records finds the charset in force, or the error of the offending record |
| Pax.CharsetIsLastWins | crates/tar-framing/src/pax.rs:571-588 | the charset found before typing is that of the last `hdrcharset` record of the typed header, deletion meaning UTF-8, else the inherited one, wherever the record stands |
| Values.CharsetMeans | crates/tar-framing/src/pax.rs:637-645 | exactly two texts name a charset, `ISO-IR 10646 2000 UTF-8` and `BINARY`, each its own; the empty text deletes |
| Values.ValueReads | crates/tar-framing/src/pax.rs:602-696 | each kind of value is read if and only if the text spells it: integers and seconds by their decimal value, fractions dropped, text only if it is UTF-8, names by the charset in force, vendor values as they are; an empty text deletes |
| Values.RecordMeans | crates/tar-framing/src/pax.rs:435-480 | a record is read if and only if its keyword's text is that of the typed keyword and its value means the typed value, so keyword and kind of value are decided by the text alone |
| Values.PayloadMeans | crates/tar-framing/src/pax.rs:486-588 | a whole payload reads as a list of records if and only if it is partitioned into raw records that say just that, in the charset that the list's own last `hdrcharset` leaves or else the inherited one |
| Pax.ParsePaxRecords | crates/tar-framing/src/pax.rs:486-570 | parsing is splitting, then charset resolution over the whole header, then typing each record; the first error in that order is reported |
| Pax.SlotsAnswerAsHistory | crates/tar-framing/src/pax.rs:154-173 | one slot per keyword, latest update in it, answers every lookup as the whole history of updates does, tombstones included |
| Pax.GlobalPaxRecords.Apply | crates/tar-framing/src/pax.rs:155-167 | applying one global header appends its records to the history that the indexed slots stand for, and keeps index and slots consistent |
| Pax.GlobalPaxRecords.Get | crates/tar-framing/src/pax.rs:168-173 | a lookup through the index is the last record for the keyword in the whole concatenated history |
| Pax.GlobalPaxRecords.ActiveCharset | crates/tar-framing/src/pax.rs:174-187 | the inherited charset is that of the last `hdrcharset` in the history |
| Pax.LastRecordConcat | crates/tar-framing/src/pax.rs:251-280 | the last record of two concatenated lists is the second list's, else the first's: the precedence local over global rests on it |
| Framing.FramesAreLossless | crates/tar-framing/src/stream.rs:1246-1268 | the next frame is the next whole block of the input at the position where it was read, and what is left is what followed it |
| Framing.StepKeepsBlock | crates/tar-framing/src/stream.rs:896-1038 | for every state and block: a frame carries that very block and position, only zero blocks yield none, and a member is never left with nothing to read |
| Framing.ShortInputFails | crates/tar-framing/src/stream.rs:822-895 | an input that stops where a block should be fails there: inside a block with the bytes it had, inside a payload with whose it is and what is missing, at a boundary with the missing end marker, behind an extension as an unexpected end |
| Framing.NoFrameInEndMarker | crates/tar-framing/src/stream.rs:896-1038 | after the first zero block no further frame can come, whatever follows |
| TarStream.TarStream.constructor | crates/tar-framing/src/stream.rs:493-531 | a new stream is the start state of the block machine with the whole input unread |
| TarStream.TarStream.PollReadBlock | crates/tar-framing/src/stream.rs:822-863 | over any splitting of reads, a stall or end keeps the unread bytes unchanged, a finished block is the next 512 of them, and each failure has its own condition on the input |
| TarStream.TarStream.ProcessBlock | crates/tar-framing/src/stream.rs:896-1038 | one block changes the fields exactly as one machine step does, and any error leaves the stream failed |
| TarStream.TarStream.ProcessPaxData | crates/tar-framing/src/stream.rs:907-975 | extension data is collected or, at its last byte, parsed with the active charset; local records wait for their member, global ones join the history |
| TarStream.TarStream.ProcessBoundaryHeader | crates/tar-framing/src/stream.rs:1039-1056 | a header at a member boundary is dispatched by family and type as the machine's boundary step says |
| TarStream.TarStream.ParseFormatCheckedHeader | crates/tar-framing/src/stream.rs:1057-1082 | the first header selects the family, a header of the other family is refused, and a refusal changes nothing |
| TarStream.TarStream.ProcessPaxHeader | crates/tar-framing/src/stream.rs:1100-1161 | each size limit is checked in the source's order and the global total grows only when the header is accepted |
| TarStream.TarStream.ProcessUstarHeader | crates/tar-framing/src/stream.rs:1162-1181 | the member's size is the local record's, else the global record's, else the header's, and the payload state follows it |
| TarStream.TarStream.ProcessGnuHeader | crates/tar-framing/src/stream.rs:1182-1245 | `L` and `K` extensions are accepted once each in any order before one member, with their limit |
| TarStream.TarStream.NextFrame | crates/tar-framing/src/stream.rs:546-553 | for any read fragmentation: the frame, end or error is the one the unread input determines as a whole, a stall changes nothing of that, and only I/O errors are extra |
| TarStream.TarStream.StartMemberChunk | crates/tar-framing/src/stream.rs:618-678 | a chunk covers at least the target or all that remains, reads nothing yet, and is refused without effect when none may start |
| TarStream.TarStream.CompleteMemberChunk | crates/tar-framing/src/stream.rs:679-767 | an abandoned or finished fill loses, repeats and reorders nothing: undelivered bytes, remaining count and offset are unchanged |
| TarStream.TarStream.TakeMemberChunk | crates/tar-framing/src/stream.rs:768-789 | the bytes handed out are the next payload bytes and exactly the blocks that hold them are used up |
| TarStream.TarStream.TakeMemberBlockFromChunk | crates/tar-framing/src/stream.rs:790-821 | one block of a chunk is the next block of the input, with the payload length and position a direct read would give |
| TarStream.TarStream.ReadMemberBlock | crates/tar-framing/src/stream.rs:554-587 | a block read, from a pending chunk or directly, hands over the next payload block; a stall changes nothing; a failure names its cause |
| TarStream.TarStream.ReadMemberChunk | crates/tar-framing/src/stream.rs:588-610 | the bytes are the next payload bytes, exactly as many as the retained block or chunk or a fresh chunk has; they reach the target or the payload's end if and only if a pending chunk has enough left or, with no chunk pending, no partial block is retained or one block is enough |
| TarStream.TarStream.DueMeetsTarget | crates/tar-framing/src/logical.rs:545-562 | the documented chunk promise holds exactly when what is due reaches the target or the end: a condition on the fields before the call |
| TarStream.ShortChunkAfterStall | crates/tar-framing/src/stream.rs:588-602 | a block read that stalls part-way, given up, makes the chunk call for 1024 bytes that follows deliver one block, though more is left |
| TarStream.RetainedBlockWitness | crates/tar-framing/src/stream.rs:588-602 | a concrete stream with 100 bytes of a 1024-byte payload retained delivers 512 bytes for a target of 1024 |
| Grammar.ArchiveAgrees | crates/tar-framing/src/stream.rs:896-1268 | from any member boundary the block-by-block machine completes on exactly the inputs that a recursive reader of whole headers and payloads accepts, with the same frames |
| Grammar.CompletedArchive | crates/tar-framing/src/stream.rs:896-1268 | a run from the start completes if and only if that reader accepts; the frames' blocks plus two zero blocks are then the input, at offsets 0, 512, 1024 and so on |
| Derivation.MachineIsLanguage | crates/tar-framing/src/stream.rs:896-1268 | a run completes with certain frames if and only if the input is laid out from groups of one family, each well formed without any machine: a global header; a member, behind at most one local extension; a GNU member behind name extensions of different kinds; every part with data frames of its stated size, and two zero blocks at the end |
| Derivation.LanguageAccepted | crates/tar-framing/src/stream.rs:896-1268 | every layout of well-formed groups is accepted, from any boundary and with any global records before it, as exactly its frames |
| Derivation.AcceptedDerived | crates/tar-framing/src/stream.rs:896-1268 | whatever is accepted is such a layout, so extensions stand only where the language puts them |
| Derivation.DataStanding | crates/tar-framing/src/stream.rs:907-1006 | the payload at a place in the input is carried by exactly one list of data frames standing there |
| Grammar.RunIsLossless | crates/tar-framing/src/stream.rs:822-1268 | from any point before the end marker, a completed run's blocks are the input consumed, in order and at consecutive offsets |
| Grammar.PayloadFramesMeasure | crates/tar-framing/src/stream.rs:907-1006 | a payload of n bytes is ceil(n/512) data frames whose lengths sum to n and whose blocks are the padded bytes |
| Grammar.PayloadFramesPlaced | crates/tar-framing/src/stream.rs:907-1006 | those frames stand at successive blocks, belong to their header, and only the last completes records |
| Runs.RunObeysPolicy | crates/tar-framing/src/stream.rs:426-443 | over any input, complete or not: all frames are of one family, each extension keeps its limit and all global extensions together keep theirs |
| Logical.StepsStayTogether | crates/tar-framing/src/logical.rs:319-475 | for every frame the stream can yield, the assembling reader accepts it and both stay in step, so none of its own ordering errors can occur |
| Logical.AttachedStateGivesSize | crates/tar-framing/src/logical.rs:319-397 | the size that framed a pax member is the one its attached records give, else the declared size |
| Layout.HeaderReads | crates/tar-framing/src/stream.rs:1312-1350 | a block is read as a header of a family, type and size if and only if it carries that family's identity, an octal checksum that is its byte sum, that size in its field and that type flag, all at fixed offsets |
| Layout.NumbersRead | crates/tar-framing/src/stream.rs:280-299 | mode, owner, group and time are read if and only if their own fields spell them in the family's notation, or are blank where the policy lets them be |
| Layout.UstarTaken | crates/tar-framing/src/stream.rs:166-234 | a ustar header is taken if and only if its type is known, its numbers stand, its owner names are terminated and its sizes fit its kind, and then as exactly those values |
| Layout.GnuTaken | crates/tar-framing/src/stream.rs:235-279 | the same for a GNU header, which behind a long link name must be a link's |
| Layout.LogicalReads | crates/tar-framing/src/logical.rs:252-283 | user name, group name, link name and path each come from their own field: the text up to its NUL; a ustar prefix is joined with a slash, a GNU header has none |
| Layout.WrittenHeaderSays | crates/tar-framing/src/write.rs:142-216 | the ordinary header of a written member stands on its own: type, mode (directories and executables 755, links 777, files 644), size and path as far as the fields have room, link text, and nothing in the owner fields |
| Groups.GroupReads | crates/tar-framing/src/logical.rs:319-475 | a GNU header laid down with long name and long link name in front, either, both or neither and in either order, is read as one member with just those names attached, and what follows is left |
| PaxGroups.PaxGroupReads | crates/tar-framing/src/logical.rs:319-475 | a pax header laid down behind any number of global headers and perhaps one of its own is read as one member, each extension attached at its own position, with the size its records put in effect |
| Logical.PayloadReader.NextPayloadBlock | crates/tar-framing/src/logical.rs:479-499 | the reader's own count and the stream's stay equal; a block appends its payload part to what was delivered, a stall or error appends nothing |
| Logical.PayloadReader.NextPayloadChunk | crates/tar-framing/src/logical.rs:500-521 | the same for chunks of any target; the chunk's length is exactly what is due, which reaches the target or the payload's end if and only if the stream's condition holds, and the end of the padded payload stays where it was |
| Logical.PayloadReader.DrainPayload | crates/tar-framing/src/logical.rs:522-537 | draining from any point, across stalls, ends exactly behind the padded payload |
| Logical.ReadByAnyCalls | crates/tar-framing/src/logical.rs:478-567 | any interleaving of block, chunk and skip calls over any fragmentation, with any calls abandoned, delivers a prefix of the payload in order, all of it at the end or skipped over, and leaves the payload's end where it was for the drain that follows |
| Logical.TarReader.NextFrame | crates/tar-framing/src/logical.rs:319-397 | the next member with its extensions, the end or the error is what the whole input ahead determines (what that is in terms of the blocks is `Groups.GroupReads` and `PaxGroups.PaxGroupReads`); unread payload is drained first; failures fuse |
| Logical.TarReader.ProcessExtensionData | crates/tar-framing/src/logical.rs:403-476 | one data block changes pending extensions and the second copy of the globals as the pure assembly does |
| Logical.TarReader.NextChunk | crates/tar-framing/src/logical.rs:539-568 | reading a member's payload never changes what lies behind it; the chunk's length and when it reaches the target are stated exactly; on a failed stream a payload with anything left answers with an error |
| Write.ValidMembers | crates/tar-framing/src/write.rs:232-264 | validation passes exactly for a nonempty NUL-free path, data only in regular files, a target exactly on links, and no directory-only path on a non-directory |
| Write.AppendPaxRecord | crates/tar-framing/src/write.rs:112-134 | one record is appended whole or nothing is; which keywords are refused, and when lengths overflow, both as if-and-only-if |
| Write.SplitRejoins | crates/tar-framing/src/write.rs:360-381 | a split found rejoins to the path within the field widths, and none is found only if no slash allows one |
| Write.SplitIsComplete | crates/tar-framing/src/write.rs:360-381 | a split is found if and only if some prefix and nonempty name fit the two fields |
| Write.FindUstarSplit | crates/tar-framing/src/write.rs:360-381 | the backwards search over slashes returns what the recursive specification does |
| Write.PrefixedDecimalName | crates/tar-framing/src/write.rs:390-402 | the stand-in name is the prefix followed by the sequence's decimal, inside its buffer |
| Write.PaddingIsLeast | crates/tar-framing/src/write.rs:225-230 | the masked negation is the least padding that reaches a whole number of blocks |
| Write.FramePaxMemberInto | crates/tar-framing/src/write.rs:142-216 | framing succeeds exactly for valid members whose records fit, and the buffer is then two headers in the ustar layout around the padded records |
| RoundTrip.LayoutParses | crates/tar-framing/src/stream.rs:1312-1350 | any block in the ustar layout is recognised, passes its checksum and states its type and size |
| RoundTrip.LayoutHeader | crates/tar-framing/src/stream.rs:166-234 | a written member header is accepted with the effective size its records give and its numeric fields read back |
| RoundTrip.HeaderPathReads | crates/tar-framing/src/logical.rs:570-595 | the ordinary header's own prefix and name read back as the path whenever the writer could split it |
| RoundTrip.MemberRecordsRead | crates/tar-framing/src/write.rs:142-216 | the extended header's payload parses to exactly the path, size and link records that were written |
| RoundTrip.FramedMemberReads | crates/tar-framing/src/logical.rs:319-397 | a framed member, at any boundary of any reader in step, is the next member read, and the bytes behind its framing are what is left |
| RoundTrip.KeywordReadsBack | crates/tar-framing/src/write.rs:112-134 | an accepted keyword reads back as itself if and only if it is not a vendor keyword with a dotted or reserved vendor name |
| RoundTrip.DottedVendorMisreads | crates/tar-framing/src/write.rs:112-134 | the concrete vendor `a.b`, name `c` is accepted by the writer and read back as vendor `a`, name `b.c` |
| Decode.ParseGnuMetadata | crates/tar-framing/src/logical.rs:643-664 | a GNU name is accepted exactly when a NUL is followed by nothing but NULs, and is everything before it |
| Decode.PathPrecedence | crates/tar-framing/src/logical.rs:570-642 | a member's path is that of the last `path` record among the globals and its own, else the header's; under GNU the long name, else the header's; a deleted record, an empty path or a NUL is an error |
| Decode.LinkPathPrecedence | crates/tar-framing/src/logical.rs:153-178 | a link target follows the same precedence over `linkpath` records, the long link name and the header's link name |
| Decode.SizePrecedence | crates/tar-framing/src/pax.rs:259-280 | the size in effect is that of the last `size` record among the globals and its own, a deleted one being an error, else the header's |
| Groups.GroupDecodes | crates/tar-codec/src/decode.rs:574-631 | a GNU group decodes to the member its fields describe: the long names where it has them, the block's own otherwise, kind by type flag, size, and executable if a permission digit is odd; a policy without GNU stops at the group's first block |
| Groups.GnuArchiveDecodes | crates/tar-codec/src/decode.rs:540-631 | a GNU archive laid down entry by entry with its end marker decodes to the members the entries describe and their payloads, in order |
| PaxGroups.PaxGroupDecodes | crates/tar-codec/src/decode.rs:574-631 | a pax group decodes to the member its records and fields describe if and only if the policy has nothing against its global and its own records |
| Decode.RecordsPassIff | crates/tar-codec/src/decode.rs:356-435 | an extended header passes if and only if every vendor record is of an allowed or ignored vendor and, where asked, UTF-8, no barred global names path, link path or size, and keywords are distinct where that is asked |
| Decode.NoDuplicates | crates/tar-codec/src/decode.rs:415-435 | the pass that remembers keywords finds none repeated if and only if all are distinct and new |
| Decode.CheckPaxRecords | crates/tar-codec/src/decode.rs:356-435 | the three loops report the first violation in the order the policy defines |
| Decode.GlobalsPassIff | crates/tar-codec/src/decode.rs:202-244 | the global headers pass if and only if there are none, or they are allowed and every one of them passes; otherwise the first that does not is named with its own position |
| Decode.MemberPassesIff | crates/tar-codec/src/decode.rs:192-244 | a member passes if and only if its global headers, its family and its own records do |
| Codec.CheckMemberPolicy | crates/tar-codec/src/decode.rs:208-244 | globals, family and locals are checked in that order and the first violation is reported |
| Codec.TarArchive.NextMember | crates/tar-codec/src/decode.rs:540-572 | the member returned heads what the input decodes to; an end from a stream that has not failed means nothing was left; a call behind a failed payload ends; a non-I/O error means the rest does not decode; the first end or error fuses the archive, also after a failure |
| Codec.TarArchive.NextChunk | crates/tar-codec/src/decode.rs:517-539 | chunks append to the payload with exactly stated lengths and never change what follows; a non-I/O error on a stream that had not failed means the rest does not decode; after a failure the error comes again |
| Codec.ReadAll | crates/tar-codec/src/decode.rs:517-631 | driving the reader to its end with any chunk targets over any fragmentation gives exactly what the whole input decodes to |
| Archive.WrittenRecordsPass | crates/tar-codec/src/decode.rs:356-435 | no decode policy objects to the records the writer makes |
| Archive.WrittenMemberDecodes | crates/tar-codec/src/decode.rs:574-631 | a written member is projected to the same path, kind, size, target and executable bit |
| Archive.EntriesDecode | crates/tar-framing/src/write.rs:142-230 | from any boundary, written entries and the end marker decode to those entries in order, under any policy whose extension limit admits their records, and to nothing otherwise |
| Archive.ArchiveRoundTrip | crates/tar-framing/src/write.rs:142-264 | for every list of valid members with payloads of the declared size, writing then decoding gives exactly those members and payloads in order if and only if the policy's limit admits their records; bytes after the end marker do not matter |
| Archive.DefaultRoundTrip | crates/tar-codec/src/decode.rs:125-150 | the default policy decodes every written archive whose records take at most 256 KiB per member, to exactly its members and payloads |
| FilePayload.FilePayload.NextChunk | crates/archive-trait/src/builder.rs:180-193 | chunks delivered are a prefix of the source at all times and all declared bytes at the end; an early end means the source was too short |
| FilePayload.FilePayload.ReadStreamingChunk | crates/archive-trait/src/builder.rs:261-300 | an abandoned call keeps what it read: delivered, buffered and unread bytes stay the source's content in order |
| FilePayload.FilePayload.SwapBuffer | crates/archive-trait/src/builder.rs:216-225 | exchanging buffers before reading or after finishing disturbs no payload |
| Encode.TarEncoder.WriteMember | crates/tar-codec/src/encode.rs:50-71 | a finished call has appended one whole framing under its number; the sequence moves only then; a failure that does not poison has written nothing; each failure has its cause |
| Encode.TarEncoder.WriteFileMember | crates/tar-codec/src/encode.rs:89-111 | a finished call has appended framing, exactly the declared bytes and zero padding; a non-poisoning failure nothing at all |
| Encode.TarEncoder.WriteDirectoryMember | crates/tar-codec/src/encode.rs:113-126 | a finished call has appended one whole directory entry, a non-poisoning failure nothing |
| Encode.TarEncoder.WriteSymbolicLinkMember | crates/tar-codec/src/encode.rs:127-141 | a finished call has appended one whole link entry, a non-poisoning failure nothing |
| Encode.TarEncoder.FinishArchive | crates/tar-codec/src/encode.rs:85-87 | a finished call has appended the two zero blocks; any failure poisons |
| ComponentTree.ComponentTree.Child | crates/archive-trait/src/component_tree.rs:60-66 | a child is found exactly when the longer path has a node, and it is that node |
| ComponentTree.ComponentTree.EnsureChild | crates/archive-trait/src/component_tree.rs:68-90 | the child stands for the parent's path and the component; older ids keep their paths; no state appears |
| ComponentTree.ComponentTree.State | crates/archive-trait/src/component_tree.rs:92-94 | a node's state is what the flat path map holds at its path |
| ComponentTree.ComponentTree.SetState | crates/archive-trait/src/component_tree.rs:96-108 | the flat map changes at one path only, and every parent's counter stays the number of its stateful children |
| ComponentTree.ComponentTree.ClearState | crates/archive-trait/src/component_tree.rs:110-122 | the flat map loses one path only, counters kept |
| ComponentTree.ComponentTree.HasActiveChildren | crates/archive-trait/src/component_tree.rs:124-128 | the counter test is true if and only if some path one component longer has state |
| BuildEntries.BuildEntries.PreflightEntry | crates/archive-trait/src/builder.rs:926-955 | succeeds if and only if no committed file is a prefix, nothing lies below a new file, and the path is new or an implicit directory made explicit; otherwise names the prefix in the way |
| BuildEntries.BuildEntries.CommitEntry | crates/archive-trait/src/builder.rs:957-976 | the index records exactly the log with the new entry, its parents becoming implicit directories |
| BuildEntries.ConsistentPairs | crates/archive-trait/src/builder.rs:926-976 | over any run, no committed file lies on another entry's path and nothing explicit is committed twice |
| Builder.Builder.AddFile | crates/archive-trait/src/builder.rs:415-463 | active builders' output is always exactly the committed entries in order; done commits one with exactly the declared bytes; every refusal is explained; unpoisoned refusals wrote nothing; dropping poisons |
| Builder.Builder.AddDirectory | crates/archive-trait/src/builder.rs:465-495 | the same for an explicit directory |
| Builder.Builder.AddDirectoryAll | crates/archive-trait/src/builder.rs:503-545 | a batch commits all its entries in order; a refusal says which entry failed and why, with those before it committed, and poisons exactly when something was written; a failed traversal likewise |
| Builder.Builder.Resolve | crates/archive-trait/src/builder.rs:565-579 | the provisional poison is cleared exactly for success and for failures that left the output as it was |
| Builder.Builder.FinishIntoInner | crates/archive-trait/src/builder.rs:558-563 | a finished archive is the committed entries and the end marker; a poisoned builder refuses and writes nothing |
| Builder.FinishedArchiveDecodes | crates/archive-trait/src/builder.rs:558-563 | whatever mix of calls led there, a finished output decodes to exactly the committed entries under every policy whose limit admits their records |
| Paths.NormalizedPath.Push | crates/archive-trait/src/extract/path.rs:59-64 | pushing on the text is appending a component |
| Paths.NormalizedPath.Pop | crates/archive-trait/src/extract/path.rs:66-76 | popping the text drops the last component, and fails exactly at the root |
| Paths.NormalizedPath.Extend | crates/archive-trait/src/extract/path.rs:78-82 | extending appends all components in order |
| Paths.NormalizedPath.Parent | crates/archive-trait/src/extract/path.rs:43-49 | the text before the last slash is the path without its last component |
| Paths.NormalizedPath.FileName | crates/archive-trait/src/extract/path.rs:51-57 | the text behind the last slash is the last component |
| Paths.NormalizedPath.StartsWith | crates/archive-trait/src/extract/path.rs:84-93 | the text test is true if and only if the components are a prefix |
| Paths.NormalizeMemberPath | crates/archive-trait/src/extract/path.rs:163-182 | the loop returns the names without dots and empty components, or the first fault the specification finds |
| Paths.NormalizeIsIdempotent | crates/archive-trait/src/extract/path.rs:163-182 | normalizing the text of a normalized name gives the same path |
| Paths.WalkTargetMeans | crates/archive-trait/src/extract/path.rs:190-230 | a walk succeeds if and only if it stays below the root and, when strict, every `..` comes before the first name; its result is the resolved path |
| Paths.ValidTargetsResolve | crates/archive-trait/src/extract/path.rs:190-319 | symlink validation succeeds if and only if plain resolution from the same base does and all `..` lead; both then agree |
| Paths.ResolveLinkTarget | crates/archive-trait/src/extract/path.rs:294-319 | the popping and pushing loop computes that plain walk, refusing only what leaves the root |
| Paths.ValidateSymlinkTarget | crates/archive-trait/src/extract/path.rs:190-230 | the strict loop computes the strict walk from the link's parent and whether the text demands a directory |
| Extraction.RunsStayCoherent | crates/archive-trait/src/extract/root.rs:390-494 | after any members on any valid disk: every owned path has only owned real directories above it, entries match the disk, and links are valid |
| Extraction.ExtractItemKeeps | crates/archive-trait/src/extract/root.rs:332-494 | one member of any kind keeps that coherence |
| Extraction.OwnedAbove | crates/archive-trait/src/extract/root.rs:721-804 | every proper ancestor of an owned path is an owned directory and really a directory on the disk |
| Extraction.NothingOwnedBelow | crates/archive-trait/src/extract/root.rs:822-839 | below a path without state nothing is owned |
| Extraction.LinkOwner | crates/archive-trait/src/extract/root.rs:405-433 | each live link belongs to exactly one path |
| Extraction.HardLinkTargetLives | crates/archive-trait/src/extract/root.rs:435-494 | a hard link's checked target is still an extracted file, and on the disk, after the parents are made and the old leaf is removed |
| Extraction.EnsureParentsKeeps | crates/archive-trait/src/extract/root.rs:721-737 | making implicit parents leaves every owned path as it was and ends with the parent an owned directory |
| Extraction.ReplaceLeafKeeps | crates/archive-trait/src/extract/root.rs:806-839 | a replaced leaf is gone from disk and tree, had no owned children, and nothing else changed |
| Extraction.WriteBufferedKeeps | crates/archive-trait/src/extract/root/buffered.rs:96-129 | a buffered write touches its own path only, ends with a file there, and a write without permission over an existing node is bound to fail |
| Conditions.LeafReplaced | crates/archive-trait/src/extract/root.rs:806-839 | a leaf gives way if and only if overwrites are allowed, nothing extracted lies below it, and it is not a directory with something in it; otherwise it is itself the collision reported |
| Conditions.DirectoryHad | crates/archive-trait/src/extract/root.rs:739-804 | a directory is had if and only if nothing but a directory stands there, extracted or ambient, or, for a directory member alone, what stands there is a replaceable leaf |
| Conditions.DirectoryBecomes | crates/archive-trait/src/extract/root.rs:739-804 | an owned directory is left alone, an ambient one is adopted with the disk unchanged, and only where neither is one made |
| Conditions.ParentsHad | crates/archive-trait/src/extract/root.rs:721-737 | implicit parents are had if and only if no file or link stands on the way, the shallowest that does being reported, and all that changes is that directories come to be |
| Conditions.FileIff | crates/archive-trait/src/extract/root.rs:332-388 | a file of any size is extracted if and only if its payload does not fail, its way is clear and its place is free or replaceable; otherwise the payload or that collision is the error |
| Conditions.DirectoryIff | crates/archive-trait/src/extract/root.rs:390-403 | a directory member is extracted if and only if its way is clear and its place is passable or replaceable |
| Conditions.SymlinkIff | crates/archive-trait/src/extract/root.rs:405-433 | a symbolic link is reserved if and only if its target is relative and stays below the destination with every `..` in front, its way is clear and its place is free or replaceable; a bad target is reported before any collision |
| Conditions.HardLinkIff | crates/archive-trait/src/extract/root.rs:435-494 | a hard link is extracted if and only if its target resolves to an extracted file that is not at or above its own path, its way is clear, its place is free or replaceable and its payload does not fail; each failure has its own reason, in that order |
| Conditions.ItemIff | crates/archive-trait/src/extract/root.rs:332-494 | any member is extracted if and only if disk, extracted paths and overwrite policy meet the conditions of its kind, stated without the operation |
| Conditions.NoFilesystemErrors | crates/archive-trait/src/extract/root.rs:332-494 | no member is ever stopped by the file system: whatever cannot be made has been found as a collision before |
| Conditions.ItemOnly | crates/archive-trait/src/extract/root.rs:332-494 | a member changes its own path, makes directories on the way to it, and touches no other name, on the disk or in the tree |
| Conditions.RunIff | crates/archive-trait/src/extract.rs:167-213 | a whole run goes through if and only if each member's conditions hold when its turn comes |
| Effects.SmallFileEffect | crates/archive-trait/src/extract/root.rs:593-654 | an extracted small file holds exactly the payload and executable bit, is owned, and no other file changed |
| Effects.LargeFileEffect | crates/archive-trait/src/extract/root.rs:332-388 | a streamed file holds exactly what its payload delivered |
| Effects.HardLinkEffect | crates/archive-trait/src/extract/root.rs:435-494 | a whole hard-link member, parents and replaced leaf included, is one more name of the file its checked target is; with a payload that file's contents are the payload under every name it has; all other files stay what they were |
| Effects.DirectoryMemberEffect | crates/archive-trait/src/extract/root.rs:390-403 | a directory member that succeeds is an owned directory on the disk |
| Effects.SymlinkEffect | crates/archive-trait/src/extract/root.rs:405-433 | a whole symbolic-link member records for its own path its own text, the place that text resolves to from there, and whether its last component asks for a directory; nothing stands at the path yet and no other name is touched |
| Effects.OwnedStays | crates/archive-trait/src/extract.rs:167-213 | over any run, what is owned stays as it is, on the disk too, until a member comes to that very path, and recorded links are only added to |
| Effects.LastFileMemberStays | crates/archive-trait/src/extract.rs:157-213 | in any run, every path whose last member is a file ends with that member's payload and executable bit, unless a later hard link carries a payload for that very inode |
| Effects.LastSymlinkMemberStays | crates/archive-trait/src/extract.rs:157-213 | in any run, every path whose last member is a symbolic link ends with that member's own text and resolution recorded for it |
| Effects.LastHardLinkMemberStays | crates/archive-trait/src/extract.rs:157-213 | in any run, a path whose last member is a hard link ends as a name of the very file its text names, holding the payload if the member had one, as long as no later member came to either |
| Links.NormalFormUnique | crates/archive-trait/src/extract/root.rs:844-898 | a path has at most one normal form and one number of rewrites to it |
| Links.CycleHasNoNormalForm | crates/archive-trait/src/extract/root.rs:844-898 | a path met twice has no normal form |
| Links.TerminalMeans | crates/archive-trait/src/extract/root.rs:844-898 | a path is rewritten at the one extracted link on it, wherever that is; without one it stands for nothing if an extracted file is in the way, for a directory or file as which it was extracted, else for something not extracted |
| Links.EvaluateCorrect | crates/archive-trait/src/extract/root.rs:844-898 | a result is the unique normal form's, within 256 rewrites; a cycle or expansion error means there is none within reach; the work counter only grows and never passes 8 MiB |
| Links.EvaluateExact | crates/archive-trait/src/extract/root.rs:844-898 | a target is found if and only if the path has a normal form within 256 rewrites whose chain, on top of the work already done, keeps to 8 MiB; the counter then grows by exactly that chain's work, and a chain too costly is the work error |
| Links.VerdictExact | crates/archive-trait/src/extract/root.rs:512-540 | one link passes if and only if its target settles, affordably, on what policy and inspection permit; each of the four refusals is given exactly for its own condition on them |
| Links.LexicalIsPhysical | crates/archive-trait/src/extract/root.rs:844-898 | wherever lexical resolution gives a kind, walking the raw text over the finished disk, following links as the POSIX rules do, ends at that kind and never leaves the root |
| Links.CheckUpToChecksOut | crates/archive-trait/src/extract/root.rs:497-540 | checking keeps the shared work within its limit over all links and collects exactly the links that still own their path, each directory-demanding one not leading to a file |
| Links.MakeUpToSucceeds | crates/archive-trait/src/extract/root.rs:541-588 | making a checked link always finds its path free and its directory there |
| Links.FinalizeFinishes | crates/archive-trait/src/extract/root.rs:497-588 | finalization stops only for a failed check, and otherwise has made every live link and nothing else |
| Links.FinalizeIff | crates/archive-trait/src/extract/root.rs:497-540 | finalization goes through if and only if every live link settles within 256 rewrites on what the policy permits and all of them together keep to 8 MiB of work; otherwise the first link failing that is reported with the disk unchanged |
| Links.LinksResolvePhysically | crates/archive-trait/src/extract/root.rs:497-588 | after finalization, following any live link's raw text from its own directory ends at the kind it was resolved to |
| Links.CheckedLinkLeads | crates/archive-trait/src/extract/root.rs:497-588 | where a live link settles on a kind, following its raw text on the finished disk within 256 hops ends at that kind |
| Links.LiveLinksLead | crates/archive-trait/src/extract/root.rs:497-588 | after finalization every live link settled; an extracted target is what following the link finds; an unextracted one has, without leave for ambient targets, nothing there and no ambient link on the way, and without leave for missing ones no link leads to nothing |
| Links.WalkMoreHops | crates/archive-trait/src/extract/root.rs:844-898 | a walk that had enough hops ends the same with more |
| Buffered.WriteBufferedFile | crates/archive-trait/src/extract/root/buffered.rs:96-129 | creating, replacing through a capability and retrying comes to the same disk and error as the one-step write at the path |
| Buffered.WriteBufferedFiles | crates/archive-trait/src/extract/root/buffered.rs:71-93 | a batch writes in order up to the first error, which it reports, and nothing after it |
| Buffered.SettleMore | crates/archive-trait/src/extract/root/buffered.rs:71-93 | a file added behind a batch is written where the batch leaves off, or not at all if the batch fails |
| ExtractionRoot.ExtractionRoot.constructor | crates/archive-trait/src/extract/root.rs:285-330 | a new engine agrees with one-at-a-time extraction on the disk it was given |
| ExtractionRoot.ExtractionRoot.FlushBufferedFiles | crates/archive-trait/src/extract/root.rs:656-675 | after a flush nothing is pending and disk, tree and error are those of one-at-a-time extraction |
| ExtractionRoot.ExtractionRoot.QueueBufferedFile | crates/archive-trait/src/extract/root.rs:593-654 | delaying a file under any limits comes to writing it at once: the batch's bytes are counted exactly and bounded, and an earlier failure stays the one reported |
| ExtractionRoot.ExtractionRoot.Enqueue | crates/archive-trait/src/extract/root.rs:619-654 | recording a file before its write is safe: either it will be there, or the pending batch is bound to fail with the same error |
| ExtractionRoot.ExtractionRoot.CapabilityNames | crates/archive-trait/src/extract/root.rs:1093-1105 | root, cached directory or full path: the capability and relative path chosen name the same disk node as the root-relative path |
| ExtractionRoot.ExtractionRoot.EnsureDirectoryAt | crates/archive-trait/src/extract/root.rs:739-804 | arena, disk and cached handle move as the pure directory rules say, whose exact conditions and results are `Conditions.DirectoryHad` and `Conditions.DirectoryBecomes`; the handle stays open on what it names |
| ExtractionRoot.ExtractionRoot.EnsureParentsAt | crates/archive-trait/src/extract/root.rs:721-737 | the loop over ancestors is the recursive specification and returns the parent's own node |
| ExtractionRoot.ExtractionRoot.KnownParent | crates/archive-trait/src/extract/root.rs:103-136 | a parent is known only when every ancestor is an owned directory, and is that path's node |
| ExtractionRoot.ExtractionRoot.RemoveLeafAt | crates/archive-trait/src/extract/root.rs:951-986 | removal drops the cached handle whenever it was the removed directory's, so the cache never goes stale |
| ExtractionRoot.ExtractionRoot.ReplaceLeafAt | crates/archive-trait/src/extract/root.rs:806-822 | a leaf is cleared from disk and tree, or refused, exactly as the pure rule decides |
| ExtractionRoot.ExtractionRoot.CanReplaceEntry | crates/archive-trait/src/extract/root.rs:837-839 | the child counter decides replacement as the absence of owned paths below does |
| ExtractionRoot.ExtractionRoot.CreateFileFor | crates/archive-trait/src/extract/root.rs:681-719 | parents, creation, and the replace-and-retry path come to the pure outcome |
| ExtractionRoot.ExtractionRoot.ExtractFile | crates/archive-trait/src/extract/root.rs:332-388 | small files queued and large files streamed both come to the pure outcome of the member |
| ExtractionRoot.ExtractionRoot.ExtractDirectoryMember | crates/archive-trait/src/extract/root.rs:390-403 | with the batch flushed first, a directory member comes to its pure outcome |
| ExtractionRoot.ExtractionRoot.ReserveSymlinkMember | crates/archive-trait/src/extract/root.rs:405-433 | a link is validated, its leaf cleared and its path reserved as the pure outcome says, which `Effects.SymlinkEffect` pins to the member's own text; on the disk nothing yet |
| ExtractionRoot.ExtractionRoot.ExtractHardLinkMember | crates/archive-trait/src/extract/root.rs:435-494 | checks, link and payload come to the pure outcome, in that order of errors |
| ExtractionRoot.ExtractionRoot.StateForPath | crates/archive-trait/src/extract/root.rs:103-144 | descending the arena finds the state of exactly that path |
| ExtractionRoot.ExtractionRoot.ExtractAll | crates/archive-trait/src/extract.rs:167-213 | for every member sequence and every batch limit, the final disk and the first error are those of extracting one member at a time |
| ExtractionRoot.ExtractionRoot.ChargePath | crates/archive-trait/src/extract/root.rs:1108-1132 | work is charged prefix by prefix and refused exactly where it would pass the limit |
| ExtractionRoot.ExtractionRoot.PassOver | crates/archive-trait/src/extract/root.rs:858-888 | one pass down the arena finds the first entry that rewrites or blocks the path, or the state at its end |
| ExtractionRoot.ExtractionRoot.ResolveTerminal | crates/archive-trait/src/extract/root.rs:844-898 | the loop with its visited set always ends and returns the evaluator's result and counter |
| ExtractionRoot.ExtractionRoot.FinalizeSymlinks | crates/archive-trait/src/extract/root.rs:497-588 | all checks come before any link is made, and disk and error are those of the pure finalization, which goes through exactly as `Links.FinalizeIff` says |
| Extract.PlannedPathsAreNormal | crates/archive-trait/src/extract/path.rs:101-182 | every path extraction touches is the member's own, made of plain names only, so it stays below the destination |
| Extract.NameDecodes | crates/archive-trait/src/extract/path.rs:101-182 | a member's name is taken if and only if the validator accepts it, it is relative with forward slashes and no `..`, and, unless a directory's, it ends in a name; a link's text must be acceptable and not empty |
| Extract.RefusedIff | crates/archive-trait/src/extract.rs:166-244 | a member is refused if and only if it is not admissible, for the first of the objections in the source's order; it is passed over exactly if it is an admissible symbolic link under the skipping policy |
| Extract.MemberIff | crates/archive-trait/src/extract.rs:166-206 | a decoded member is extracted if and only if it is admissible and fits the disk and what was extracted before it |
| Extract.MemberEffect | crates/archive-trait/src/extract.rs:166-206 | what a decoded member leaves: a file's payload with its own executable bit, an owned directory, its own link text, one more name of its target, or nothing if passed over; and nothing else is touched |
| Extract.ArchiveIff | crates/archive-trait/src/extract.rs:157-213 | a whole archive is extracted if and only if every member is admissible and fits in its turn and every link passes at the end |
| Extract.LastFileExtracted | crates/archive-trait/src/extract.rs:157-213 | on the disk that a successful extraction leaves, the last file member for a path is there with its payload and its executable bit, unless a later hard link carried a payload for that very file |
| Extract.LastDirectoryExtracted | crates/archive-trait/src/extract.rs:157-213 | the last directory member for a path is a directory there |
| Extract.LastSymlinkExtracted | crates/archive-trait/src/extract.rs:157-213 | the last preserved symbolic link for a path is a link there with the member's own text |
| Extract.LastHardLinkExtracted | crates/archive-trait/src/extract.rs:157-213 | the last hard link for a path is there the same file as its target, with its own payload if it had one, as long as no later member came to either path |
| Extract.ExtractAllMembers | crates/archive-trait/src/extract.rs:157-213 | extracting decoded members, links included, leaves the disk and error of extraction without a batch; the limits do not appear in the result |
| Extract.ExtractedLinksResolve | crates/archive-trait/src/extract.rs:157-213 | after a successful extraction every live link that settles on a kind really leads there on the finished disk, from its own directory, inside the destination |
| Extract.ExtractedLinksLead | crates/archive-trait/src/extract.rs:157-213 | after a successful extraction no live link is unaccounted for: one to something extracted leads there, and any other keeps to what the policy says of ambient and missing targets |
| Fresh.ConsistentExtracts | crates/archive-trait/src/extract.rs:167-206 | members that are acceptable one by one, agree pairwise on which paths are directories, and link only to files made before them are all extracted onto an empty destination, under any overwrite policy |
| EndToEnd.ArchivedArrives | crates/tar-codec/src/decode.rs:540-631 | whatever was written arrives, behind the decoder, as a member of the same kind, path, text and executable bit with its payload |
| EndToEnd.ArchivedIsExtracted | crates/archive-trait/src/extract.rs:157-213 | archived, decoded and extracted: the last entry for a path is on the disk as it was put in, a file with its bytes and executable bit, a directory, a preserved link with its text |

## Left out

- Wakers, task scheduling, channels and blocking threads: an await is a poll that may stall, and cancellation is stopping at a stall with the fields kept.
- The cancellation flag shared with a running batch write: a batch runs to its first error.
- Absent global records and an empty set of them are one value; lookups do not tell them apart.
- Buffer reuse, reference counting and `HeaderStorage`: header and payload slices of one vector are separate arrays copied together.
- Error texts: errors are enumerations with the position and the fields that decide them.
- A 32-bit `usize`: machine words are taken as 64 bits.
- `ExtractionRoot.ExtractionRoot.ExtractAll`: the disk fails only for reasons its own state gives; spontaneous I/O errors, permissions and quotas of a real file system are not modelled.
- Case-insensitive disks and the retry for colliding link names in `finalize_symlinks`: distinct names are distinct leaves, and `Links.MakeUpToSucceeds` shows the path is then free.
- Windows prefixes, junctions and platform checks of extraction paths.
- Ambient link targets outside the archive and the archive-name validators: function parameters of any behaviour.
- Disk operations do not follow links in intermediate components; `Extraction.OwnedAbove` shows that every ancestor of an owned path is a real directory.
- `Links.CheckedLinkLeads`: a system that follows fewer than 256 links in one path reports an error on longer chains; that limit is not modelled.
- Directory traversal and source preparation in `builder/traversal.rs`: a traversal is the list of prepared entries it hands over and whether it failed.
- `tarpit`, benches, policy setters and display code.
