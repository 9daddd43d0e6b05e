/** Reading back what the writer frames: layout, records, and one member at a time. */
module RoundTrip {
  import opened Octets
  import opened Numbers
  import opened Header
  import opened PaxRecords
  import opened Pax
  import opened Framing
  import opened Grammar
  import opened Logical
  import opened Write

  // ----------------------------------------------------------------- headers

  lemma FieldReads(value: U64, width: nat)
    requires 1 < width && value < Pow(8, width - 1)
    ensures ParseOctal(OctalField(value, width)) == Some(value) && !AllNul(OctalField(value, width))
  {
    OctalRoundTrip(value, width - 1, [0]);
    assert OctalField(value, width)[0] == OctalDigits(value, width - 1)[0] >= 48;
  }

  /** A header block in the ustar layout is recognised, checks out, and states its size. */
  lemma LayoutParses(
      block: Block, prefix: seq<Byte>, name: seq<Byte>, mode: U64, size: U64, typeflag: Byte, linkPath: seq<Byte>, position: U64)
    requires |name| <= 100 && |prefix| <= 155 && UstarLayout(block, prefix, name, mode, size, typeflag, linkPath)
    requires size < Pow(8, 11)
    ensures ParseHeader(position, block) == Ok(ParsedHeader(PaxFormat, typeflag, size))
    ensures !IsZeroBlock(block)
  {
    hide ParseOctal, Checksum, OctalField, NulPadded, ChecksumField;
    assert block[LINK_NAME_END] == block[LINK_NAME_END..IDENTITY_END][0] == 117;
    ChecksumSurvives(block, Checksum(block));
    FieldReads(size, 12);
  }

  /** The numeric metadata of a written header reads back. */
  lemma LayoutNumbers(
      block: Block, prefix: seq<Byte>, name: seq<Byte>, mode: U64, size: U64, typeflag: Byte, linkPath: seq<Byte>,
      position: U64, allowNul: bool)
    requires |name| <= 100 && |prefix| <= 155 && UstarLayout(block, prefix, name, mode, size, typeflag, linkPath)
    requires mode < Pow(8, 7)
    ensures NumericFields(position, PaxFormat, block, allowNul) == Ok((Some(mode), Some(0), Some(0), Some(0)))
  {
    hide ParseOctal, Checksum, OctalField, NulPadded, ChecksumField, AllNul;
    FieldReads(mode, 8);
    FieldReads(0, 8);
    FieldReads(0, 12);
  }

  /** A written member header is accepted, with the size its records give. */
  lemma LayoutHeader(
      block: Block, prefix: seq<Byte>, name: seq<Byte>, mode: U64, size: U64, typeflag: Byte, linkPath: seq<Byte>,
      position: U64, allowNul: bool, sizeRecord: Option<PaxRecord>, kind: UstarKind, effective: U64)
    requires |name| <= 100 && |prefix| <= 155 && UstarLayout(block, prefix, name, mode, size, typeflag, linkPath)
    requires mode < Pow(8, 7) && KindOf(typeflag) == Some(kind)
    requires EffectiveSize(position, size, sizeRecord) == Ok(effective)
    requires CarriesPayload(PaxFormat, kind) || (size == 0 && effective == 0)
    ensures UstarHeader(position, block, ParsedHeader(PaxFormat, typeflag, size), sizeRecord, allowNul)
            == Ok(MemberHeader(position, block, PaxFormat, kind, size, effective, Some(mode), Some(0), Some(0), Some(0)))
  {
    LayoutNumbers(block, prefix, name, mode, size, typeflag, linkPath, position, allowNul);
    hide NumericFields, UstarLayout, KindOf, EffectiveSize;
    UnamesTerminated(block, prefix, name, mode, size, typeflag, linkPath);
  }

  lemma UnamesTerminated(block: Block, prefix: seq<Byte>, name: seq<Byte>, mode: nat, size: nat, typeflag: Byte, linkPath: seq<Byte>)
    requires |name| <= 100 && |prefix| <= 155 && UstarLayout(block, prefix, name, mode, size, typeflag, linkPath)
    ensures 0 in block[IDENTITY_END..UNAME_END] && 0 in block[UNAME_END..GNAME_END]
  {
    hide OctalField, NulPadded, ChecksumField, Checksum;
    var zeros := block[IDENTITY_END..GNAME_END];
    assert block[IDENTITY_END..UNAME_END][0] == zeros[0] == 0;
    assert block[UNAME_END..GNAME_END][0] == zeros[32] == 0;
  }

  /** The ordinary header's own path is the member's path whenever the writer could split it. */
  lemma HeaderPathReads(h: MemberHeader, prefix: seq<Byte>, name: seq<Byte>, mode: nat, size: nat, typeflag: Byte, linkPath: seq<Byte>, path: seq<Byte>)
    requires |name| <= 100 && |prefix| <= 155 && UstarLayout(h.block, prefix, name, mode, size, typeflag, linkPath)
    requires h.format == PaxFormat && UstarSplit(path, prefix, name) && 0 !in path
    ensures HeaderPath(h) == path
  {
    hide OctalField, NulPadded, ChecksumField, Checksum;
    assert 0 !in name && 0 !in prefix by {
      assert forall i :: 0 <= i < |prefix| ==> prefix[i] == path[i];
      assert forall i :: 0 <= i < |name| ==> name[i] == path[|path| - |name| + i];
    }
    TrimNulPadded(name, 100);
    TrimNulPadded(prefix, 155);
  }

  // ----------------------------------------------------------------- records

  /** What the member's records mean once read. */
  function TypedRecords(m: PaxMember): seq<PaxRecord>
  {
    [PaxRecord(PathKey, Value(Utf8String(m.path))), PaxRecord(SizeKey, Value(Number(m.size)))]
    + if m.linkPath.Some? then [PaxRecord(LinkPathKey, Value(Utf8String(m.linkPath.value)))] else []
  }

  lemma PathReads(path: Text)
    requires path != []
    ensures ParseRecord(RecordFor(PathKey, path), Utf8) == Ok(PaxRecord(PathKey, Value(Utf8String(path))))
    ensures RecordFor(PathKey, path).keyword != KW_HDRCHARSET && Printable(RecordFor(PathKey, path))
  {
    hide ValidUtf8, ParseTime, ParseInteger, ParseText, ParseHdrCharset, ParseNamespaced;
  }

  lemma LinkPathReads(path: Text)
    requires path != []
    ensures ParseRecord(RecordFor(LinkPathKey, path), Utf8) == Ok(PaxRecord(LinkPathKey, Value(Utf8String(path))))
    ensures RecordFor(LinkPathKey, path).keyword != KW_HDRCHARSET && Printable(RecordFor(LinkPathKey, path))
  {
    hide ValidUtf8, ParseTime, ParseInteger, ParseText, ParseHdrCharset, ParseNamespaced;
  }

  lemma SizeReads(size: U64)
    ensures ParseRecord(RecordFor(SizeKey, Decimal(size)), Utf8) == Ok(PaxRecord(SizeKey, Value(Number(size))))
    ensures RecordFor(SizeKey, Decimal(size)).keyword != KW_HDRCHARSET && Printable(RecordFor(SizeKey, Decimal(size)))
  {
    hide Decimal, ParseDecimal, ValidUtf8, ParseText, ParseTime, ParseString, ParseHdrCharset, ParseNamespaced;
    DecimalRoundTrip(size);
    AsciiIsUtf8(Decimal(size));
  }

  /** A vendor keyword reads back as itself unless its vendor has a dot or is one of the two reserved namespaces. */
  predicate ReadsBack(key: PaxKeyword)
  {
    key.VendorKey? ==> DOT !in key.vendor && key.vendor != KW_REALTIME && key.vendor != KW_SECURITY
  }

  /** The first dot splits a namespaced keyword where it was joined exactly when the namespace has none. */
  lemma NamespaceSplit(namespace: seq<Byte>, name: seq<Byte>)
    ensures var text := namespace + ([DOT] + name);
            && Find(text, DOT).Some? && Find(text, DOT).value <= |namespace|
            && (Find(text, DOT).value == |namespace| <==> DOT !in namespace)
            && (DOT !in namespace ==> text[..|namespace|] == namespace && text[|namespace| + 1..] == name)
  {
    var text := namespace + ([DOT] + name);
    assert text == namespace + [DOT] + name;
    assert text[|namespace|] == DOT;
    if DOT !in namespace {
      FindAfter(namespace, DOT, name);
    } else {
      var i := Find(text, DOT).value;
      assert forall k :: 0 <= k < i ==> text[k] == text[..i][k] && text[k] != DOT;
      assert forall k :: 0 <= k < |namespace| ==> text[k] == namespace[k];
    }
  }

  lemma FixedKeywordsHaveNoDot(k: seq<Byte>)
    requires DOT in k
    ensures k !in [KW_ATIME, KW_CHARSET, KW_COMMENT, KW_CTIME, KW_GID, KW_GNAME, KW_HDRCHARSET, KW_LINKPATH, KW_MTIME, KW_PATH,
                   KW_SIZE, KW_UID, KW_UNAME]
  {
  }

  /** A keyword with a dot is read by its namespace. */
  lemma DottedIsNamespaced(k: Text, value: seq<Byte>, charset: HdrCharset)
    requires DOT in k
    ensures ParseRecord(RawRecord(k, value), charset) == ParseNamespaced(k, value)
  {
    FixedKeywordsHaveNoDot(k);
    hide ValidUtf8, ParseText, ParseTime, ParseInteger, ParseString, ParseHdrCharset, ParseNamespaced;
  }

  /** What a namespaced keyword reads back as. */
  lemma NamespacedParses(k: Text, namespace: Text, name: Text, value: seq<Byte>)
    requires k == namespace + ([DOT] + name) && namespace != [] && name != [] && ParseNamespaced(k, value).Ok?
    ensures var key := ParseNamespaced(k, value).value.keyword;
            if DOT in namespace then key != VendorKey(namespace, name)
            else if namespace == KW_REALTIME then key == RealtimeKey(name)
            else if namespace == KW_SECURITY then key == SecurityKey(name)
            else key == VendorKey(namespace, name)
  {
    NamespaceSplit(namespace, name);
    hide ValidUtf8, ParseText, Find;
  }

  lemma NamespacedReads(key: PaxKeyword, value: seq<Byte>, charset: HdrCharset)
    requires key.RealtimeKey? || key.SecurityKey? || key.VendorKey?
    requires AcceptableKeyword(key) && ParseRecord(RecordFor(key, value), charset).Ok?
    ensures ParseRecord(RecordFor(key, value), charset).value.keyword == key <==> ReadsBack(key)
  {
    hide ValidUtf8, ParseRecord, ParseNamespaced, Find, Ascii;
    var (namespace, name) := Components(key);
    var k := KeywordText(key);
    assert k == namespace + ([DOT] + name.value);
    assert k[|namespace|] == DOT;
    DottedIsNamespaced(k, value, charset);
    NamespacedParses(k, namespace, name.value, value);
    assert DOT !in KW_REALTIME && DOT !in KW_SECURITY && KW_REALTIME != KW_SECURITY;
  }

  lemma PlainKeywordReads(key: PaxKeyword, value: seq<Byte>, charset: HdrCharset)
    requires !(key.RealtimeKey? || key.SecurityKey? || key.VendorKey?) && ParseRecord(RecordFor(key, value), charset).Ok?
    ensures ParseRecord(RecordFor(key, value), charset).value.keyword == key
  {
    hide ValidUtf8, ParseText, ParseTime, ParseInteger, ParseString, ParseHdrCharset, ParseNamespaced;
  }

  /** Which keywords the record writer accepts come back as themselves from the reader. */
  lemma KeywordReadsBack(key: PaxKeyword, value: seq<Byte>, charset: HdrCharset)
    requires AcceptableKeyword(key) && ParseRecord(RecordFor(key, value), charset).Ok?
    ensures ParseRecord(RecordFor(key, value), charset).value.keyword == key <==> ReadsBack(key)
  {
    hide ParseRecord, RecordFor, AcceptableKeyword;
    if key.RealtimeKey? || key.SecurityKey? || key.VendorKey? {
      NamespacedReads(key, value, charset);
    } else {
      PlainKeywordReads(key, value, charset);
    }
  }

  lemma VendorParses(k: Text, vendor: Text, name: Text, value: seq<Byte>)
    requires k == vendor + ([DOT] + name) && vendor != [] && name != [] && DOT !in vendor
    requires vendor != KW_REALTIME && vendor != KW_SECURITY
    ensures ParseNamespaced(k, value) == Ok(PaxRecord(VendorKey(vendor, name), if value == [] then Deleted else Value(Opaque(value))))
  {
    NamespaceSplit(vendor, name);
    hide ValidUtf8, ParseText, Find;
  }

  lemma DottedVendorText()
    ensures var key := VendorKey(Ascii([97, 46, 98]), Ascii([99]));
            && AcceptableKeyword(key)
            && KeywordText(key) == Ascii([97]) + ([DOT] + Ascii([98, 46, 99]))
  {
    hide ValidUtf8, Ascii;
  }

  /** The vendor keyword `a.b` with name `c` is accepted and comes back as vendor `a` with name `b.c`. */
  lemma DottedVendorMisreads()
    ensures var key := VendorKey(Ascii([97, 46, 98]), Ascii([99]));
            && AcceptableKeyword(key)
            && ParseRecord(RecordFor(key, [120]), Utf8) == Ok(PaxRecord(VendorKey(Ascii([97]), Ascii([98, 46, 99])), Value(Opaque([120]))))
  {
    var key := VendorKey(Ascii([97, 46, 98]), Ascii([99]));
    var vendor, name := Ascii([97]), Ascii([98, 46, 99]);
    hide ValidUtf8, ParseRecord, ParseNamespaced, Ascii, AcceptableKeyword, KeywordText;
    DottedVendorText();
    var k := KeywordText(key);
    assert k[1] == DOT;
    DottedIsNamespaced(k, [120], Utf8);
    assert |vendor| != |KW_REALTIME| && |vendor| != |KW_SECURITY|;
    VendorParses(k, vendor, name, [120]);
  }

  lemma {:induction false} EachReads(raw: seq<RawRecord>, typed: seq<PaxRecord>, charset: HdrCharset)
    requires |raw| == |typed|
    requires forall i :: 0 <= i < |raw| ==> ParseRecord(raw[i], charset) == Ok(typed[i]) && raw[i].keyword != KW_HDRCHARSET
    ensures ParseEach(raw, charset) == Ok(typed) && ResolveHdrCharset(raw, charset) == Ok(charset)
  {
    hide ParseRecord;
    if raw != [] {
      EachReads(raw[1..], typed[1..], charset);
      assert typed == [typed[0]] + typed[1..];
    }
  }

  lemma MemberRecordsEach(m: PaxMember)
    requires ValidateMember(m).None?
    ensures forall i :: 0 <= i < |MemberRecords(m)| ==> Printable(MemberRecords(m)[i])
    ensures ParseEach(MemberRecords(m), Utf8) == Ok(TypedRecords(m)) && ResolveHdrCharset(MemberRecords(m), Utf8) == Ok(Utf8)
  {
    hide ParseRecord, RecordFor, Decimal, Printable, ResolveHdrCharset, ParseEach, ValidUtf8, RequiresDirectory;
    PathReads(m.path);
    SizeReads(m.size);
    if m.linkPath.Some? { LinkPathReads(m.linkPath.value); }
    EachReads(MemberRecords(m), TypedRecords(m), Utf8);
  }

  /** The extended header's payload reads back as the member's records. */
  lemma MemberRecordsRead(m: PaxMember)
    requires ValidateMember(m).None? && |RecordsBytes(MemberRecords(m))| < U64_LIMIT
    ensures RecordsBytes(MemberRecords(m)) != []
    ensures ParsePayload(RecordsBytes(MemberRecords(m)), Utf8) == Ok(TypedRecords(m))
  {
    hide MemberRecords, RecordsBytes, Printable, SplitRecords, ResolveHdrCharset, ParseEach, ValidUtf8, ValidateMember;
    var raw := MemberRecords(m);
    MemberRecordsEach(m);
    assert [] + RecordsBytes(raw) == RecordsBytes(raw);
    PrintSplitRoundTrip([], raw);
    assert raw != [] by { MemberHasRecords(m); }
    PrintedNonempty(raw);
  }

  lemma MemberHasRecords(m: PaxMember)
    ensures MemberRecords(m) != []
  {
  }

  lemma PrintedNonempty(records: seq<RawRecord>)
    requires records != []
    ensures RecordsBytes(records) != []
  {
    hide Decimal, SelfCountingLength, Content;
    assert RecordBytes(records[0]) != [];
  }

  // -------------------------------------------------------------- one member

  /** A reader at a member boundary of a pax archive without global records. */
  predicate AtPaxBoundary(m: Machine, a: Assembly)
  {
    && m.state.AwaitingHeader? && m.format != Some(GnuFormat) && m.globals == []
    && a == Assembly(NO_EXTENSIONS, None, [])
  }

  /** One frame of a whole input, seen by the assembling reader. */
  lemma FrameAbsorbed(m: Machine, a: Assembly, position: U64, bytes: seq<Byte>, m': Machine, frame: Frame)
    requires !Finished(m) && Fits(position, bytes, BLOCK_SIZE)
    requires Step(m, position, bytes[..BLOCK_SIZE]) == Ok((m', Some(frame)))
    ensures frame.HeaderFrame? ==>
              NextMember(m, a, position, bytes) ==
              MemberFound(m', Cleared(a), LogicalHeaderOf(frame.header), ExtensionsFor(a, frame.header.format),
                          position + BLOCK_SIZE, bytes[BLOCK_SIZE..])
    ensures !frame.HeaderFrame? && Absorb(a, frame).Ok? ==>
              NextMember(m, a, position, bytes) == NextMember(m', Absorb(a, frame).value, position + BLOCK_SIZE, bytes[BLOCK_SIZE..])
  {
    hide Step, NextFrame, NextMember, Absorb, LogicalHeaderOf;
    RunOneBlock(m, position, bytes);
    NextMemberUnfolds(m, a, position, bytes);
  }

  /** The blocks of an extended header's payload become the extension attached to what follows. */
  lemma {:induction false} PaxCollected(
      m: Machine, kind: PaxKind, headerPosition: U64, n: U64, collected: seq<Byte>, a: Assembly, position: U64, bytes: seq<Byte>,
      records: seq<PaxRecord>)
    requires n > 0 && m.state == ReadingPax(kind, headerPosition, n, collected) && a.extension == Some(PaxPayload(headerPosition, kind))
    requires Fits(position, bytes, Padded(n)) && ParsePayload(collected + bytes[..n], GlobalCharset(m.globals)) == Ok(records)
    ensures NextMember(m, a, position, bytes) ==
            NextMember(Completed(m, kind, records), WithExtension(a, headerPosition, kind, records), position + Padded(n), bytes[Padded(n)..])
    decreases n
  {
    hide Step, NextFrame, NextMember, ParsePayload, GlobalCharset, Absorb, Completed, WithExtension;
    var block := bytes[..BLOCK_SIZE];
    PaxBlockStep(m, kind, headerPosition, n, collected, position, block, records);
    PaxBlockAbsorbed(a, headerPosition, kind, n, position, block, records);
    if n <= BLOCK_SIZE {
      assert block[..n] == bytes[..n];
      FrameAbsorbed(m, a, position, bytes, Completed(m, kind, records), DataFrame(position, block, n, PaxData(kind), Some(records)));
    } else {
      var m1, rest := m.(state := ReadingPax(kind, headerPosition, n - BLOCK_SIZE, collected + block)), bytes[BLOCK_SIZE..];
      FrameAbsorbed(m, a, position, bytes, m1, DataFrame(position, block, BLOCK_SIZE, PaxData(kind), None));
      assert collected + bytes[..n] == collected + block + rest[..n - BLOCK_SIZE];
      PaxCollected(m1, kind, headerPosition, n - BLOCK_SIZE, collected + block, a, position + BLOCK_SIZE, rest, records);
      CompletedAlike(m, m1, kind, records);
      assert bytes[Padded(n)..] == rest[Padded(n - BLOCK_SIZE)..];
    }
  }

  /** The machine, and the reader, once an extended header has been read whole. */
  function Completed(m: Machine, kind: PaxKind, records: seq<PaxRecord>): Machine
  {
    if kind == Local then m.(state := AwaitingUstarHeader(records)) else m.(state := AwaitingHeader, globals := m.globals + records)
  }

  function WithExtension(a: Assembly, position: U64, kind: PaxKind, records: seq<PaxRecord>): Assembly
  {
    var extension := Logical.PaxExtension(position, kind, records);
    if kind == Local then Assembly(a.pending.(localPax := Some(extension)), None, a.globals)
    else Assembly(a.pending.(globalPax := a.pending.globalPax + [extension]), None, a.globals + records)
  }

  lemma CompletedAlike(m: Machine, m1: Machine, kind: PaxKind, records: seq<PaxRecord>)
    requires m1 == m.(state := m1.state)
    ensures Completed(m1, kind, records) == Completed(m, kind, records)
  {
  }

  lemma PaxBlockStep(
      m: Machine, kind: PaxKind, headerPosition: U64, n: U64, collected: seq<Byte>, position: U64, block: Block, records: seq<PaxRecord>)
    requires n > 0 && m.state == ReadingPax(kind, headerPosition, n, collected)
    ensures n > BLOCK_SIZE ==>
              Step(m, position, block) == Ok((m.(state := ReadingPax(kind, headerPosition, n - BLOCK_SIZE, collected + block)),
                                              Some(DataFrame(position, block, BLOCK_SIZE, PaxData(kind), None))))
    ensures n <= BLOCK_SIZE && ParsePayload(collected + block[..n], GlobalCharset(m.globals)) == Ok(records) ==>
              Step(m, position, block) == Ok((Completed(m, kind, records), Some(DataFrame(position, block, n, PaxData(kind), Some(records)))))
  {
    hide ParsePayload, GlobalCharset;
    assert block[..BLOCK_SIZE] == block;
  }

  lemma PaxBlockAbsorbed(a: Assembly, headerPosition: U64, kind: PaxKind, n: U64, position: U64, block: Block, records: seq<PaxRecord>)
    requires a.extension == Some(PaxPayload(headerPosition, kind))
    ensures Absorb(a, DataFrame(position, block, BLOCK_SIZE, PaxData(kind), None)) == Ok(a)
    ensures Absorb(a, DataFrame(position, block, n, PaxData(kind), Some(records))) == Ok(WithExtension(a, headerPosition, kind, records))
  {
  }

  lemma ExtendedHeaderStep(m: Machine, position: U64, block: Block, name: seq<Byte>, size: U64)
    requires m.state.AwaitingHeader? && m.format != Some(GnuFormat)
    requires |name| <= 100 && UstarLayout(block, [], name, 0x1A4, size, TYPE_PAX_LOCAL, [])
    requires 0 < size < Pow(8, 11) && size <= m.policy.maxPaxExtensionSize
    ensures Step(m, position, block) ==
            Ok((m.(state := ReadingPax(Local, position, size, []), format := Some(PaxFormat)), Some(PaxFrame(position, block, Local, size))))
  {
    hide UstarLayout, ParseHeader, IsZeroBlock, GnuHeaderStep, UstarHeaderStep, LocalMemberStep, PaxDataStep, GnuDataStep,
         GnuMemberStep, MemberDataStep, Pow;
    LayoutParses(block, [], name, 0x1A4, size, TYPE_PAX_LOCAL, [], position);
  }

  lemma SizeOfRecords(m: PaxMember)
    ensures EffectiveRecord(Some(TypedRecords(m)), [], SizeKey) == Some(PaxRecord(SizeKey, Value(Number(m.size))))
    ensures EffectiveRecord(Some(TypedRecords(m)), [], PathKey) == Some(PaxRecord(PathKey, Value(Utf8String(m.path))))
    ensures EffectiveRecord(Some(TypedRecords(m)), [], LinkPathKey) ==
            if m.linkPath.Some? then Some(PaxRecord(LinkPathKey, Value(Utf8String(m.linkPath.value)))) else None
  {
    var records := TypedRecords(m);
    var two := [PaxRecord(PathKey, Value(Utf8String(m.path))), PaxRecord(SizeKey, Value(Number(m.size)))];
    LastOfTwo(two[0], two[1]);
    if m.linkPath.Some? {
      assert records[..2] == two;
    } else {
      assert records == two;
    }
  }

  lemma LastOfTwo(a: PaxRecord, b: PaxRecord)
    ensures LastRecord([a, b], a.keyword) == if b.keyword == a.keyword then Some(b) else Some(a)
    ensures LastRecord([a, b], b.keyword) == Some(b)
    ensures forall key :: key != a.keyword && key != b.keyword ==> LastRecord([a, b], key) == None
  {
    assert [a, b][..1] == [a];
  }

  /** The header the reader makes of a written member's own header. */
  function WrittenHeader(m: PaxMember, position: U64, block: Block): MemberHeader
  {
    MemberHeader(position, block, PaxFormat, m.kind, FallbackSize(m), m.size, Some(ModeOf(m)), Some(0), Some(0), Some(0))
  }

  lemma OrdinaryHeaderStep(machine: Machine, position: U64, block: Block, prefix: seq<Byte>, name: seq<Byte>, m: PaxMember, link: seq<Byte>)
    requires machine.state == AwaitingUstarHeader(TypedRecords(m)) && machine.format == Some(PaxFormat) && machine.globals == []
    requires |name| <= 100 && |prefix| <= 155 && UstarLayout(block, prefix, name, ModeOf(m), FallbackSize(m), TypeflagOf(m), link)
    requires ValidateMember(m).None?
    ensures Step(machine, position, block) ==
            Ok((machine.(state := MemberPayloadState(m.size)), Some(HeaderFrame(WrittenHeader(m, position, block)))))
  {
    hide UstarLayout, LastRecord, TypedRecords, RequiresDirectory, UstarHeader, ParseHeader, FitsOctal;
    SizeOfRecords(m);
    FallbackFits(m);
    EightToTheEleventh();
    LayoutParses(block, prefix, name, ModeOf(m), FallbackSize(m), TypeflagOf(m), link, position);
    LayoutHeader(block, prefix, name, ModeOf(m), FallbackSize(m), TypeflagOf(m), link, position,
                 machine.policy.allowAllNulNumericFields, Some(PaxRecord(SizeKey, Value(Number(m.size)))), m.kind, m.size);
  }

  lemma FallbackFits(m: PaxMember)
    ensures FallbackSize(m) < Pow(8, 11) && (m.size == 0 ==> FallbackSize(m) == 0)
  {
    FitsOctalIsEncodable(12, m.size);
    EightToTheEleventh();
  }

  /** What a reader's policy and the input's offsets must allow for a member to be read back. */
  predicate Readable(m: PaxMember, policy: StreamPolicy)
  {
    && ValidateMember(m).None?
    && var n := |RecordsBytes(MemberRecords(m))|;
       FitsOctal(12, n) && n <= policy.maxPaxExtensionSize
  }

  /** The member the reader finds in a written framing. */
  function MemberRead(machine: Machine, a: Assembly, m: PaxMember, position: U64, header: MemberHeader, next: U64, rest: seq<Byte>): MemberScan
  {
    MemberFound(machine.(state := MemberPayloadState(m.size), format := Some(PaxFormat)), a, LogicalHeaderOf(header),
                PaxState([], [], Some(Logical.PaxExtension(position, Local, TypedRecords(m)))), next, rest)
  }

  /** What the reader finds at the start of a written framing whose ordinary header is `block`. */
  function FramedRead(machine: Machine, a: Assembly, position: U64, bytes: seq<Byte>, m: PaxMember, block: Block): MemberScan
    requires Fits(position, bytes, FramedLength(m))
  {
    hide RecordsBytes, MemberRecords;
    var n := FramedLength(m);
    MemberRead(machine, a, m, position, WrittenHeader(m, position + n - BLOCK_SIZE, block), position + n, bytes[n..])
  }

  /** The parts of a framing at the front of the input. */
  lemma FramingParts(bytes: seq<Byte>, sequence: U64, m: PaxMember) returns (block: Block)
    requires FramedLength(m) <= |bytes| && Framed(sequence, m, bytes[..FramedLength(m)])
    ensures var records := RecordsBytes(MemberRecords(m));
            && FramedLength(m) == 2 * BLOCK_SIZE + Padded(|records|) && |records| <= Padded(|records|)
            && block == bytes[BLOCK_SIZE + Padded(|records|)..2 * BLOCK_SIZE + Padded(|records|)]
            && [] + bytes[BLOCK_SIZE..][..|records|] == records
    ensures MemberLaid(block, sequence, m) && ExtensionLaid(bytes[..BLOCK_SIZE], sequence, m)
  {
    hide UstarLayout, RecordsBytes, MemberRecords, HeaderName, Decimal, MemberLaid;
    var records := RecordsBytes(MemberRecords(m));
    var framing := bytes[..FramedLength(m)];
    assert bytes[..BLOCK_SIZE] == framing[..BLOCK_SIZE];
    block := framing[BLOCK_SIZE + Padded(|records|)..];
    PayloadInFraming(framing, bytes, records);
  }

  /** The extended header of a written member. */
  ghost predicate ExtensionLaid(block: Block, sequence: U64, m: PaxMember)
  {
    hide RecordsBytes, MemberRecords, UstarLayout, Decimal;
    U64HasTwentyDigits(sequence);
    UstarLayout(block, [], PAX_HEADERS + Decimal(sequence), 0x1A4, |RecordsBytes(MemberRecords(m))|, TYPE_PAX_LOCAL, [])
  }

  lemma RecordsFit(m: PaxMember, policy: StreamPolicy)
    requires Readable(m, policy)
    ensures var n := |RecordsBytes(MemberRecords(m))|; 0 < n < Pow(8, 11) && n <= policy.maxPaxExtensionSize && n < U64_LIMIT
  {
    hide RecordsBytes, MemberRecords, FitsOctal, ValidateMember, Pow;
    FitsOctalIsEncodable(12, |RecordsBytes(MemberRecords(m))|);
    EightToTheEleventh();
    MemberRecordsRead(m);
  }

  /** The extended header of a written member is taken in. */
  lemma ExtensionReads(machine: Machine, a: Assembly, position: U64, bytes: seq<Byte>, sequence: U64, m: PaxMember)
    requires AtPaxBoundary(machine, a) && Readable(m, machine.policy)
    requires Fits(position, bytes, BLOCK_SIZE) && ExtensionLaid(bytes[..BLOCK_SIZE], sequence, m)
    ensures |RecordsBytes(MemberRecords(m))| < U64_LIMIT
    ensures var n: U64 := |RecordsBytes(MemberRecords(m))|;
            NextMember(machine, a, position, bytes) ==
            NextMember(machine.(state := ReadingPax(Local, position, n, []), format := Some(PaxFormat)),
                       a.(extension := Some(PaxPayload(position, Local))), position + BLOCK_SIZE, bytes[BLOCK_SIZE..])
  {
    hide UstarLayout, RecordsBytes, MemberRecords, FitsOctal, ValidateMember, Step, NextMember, Absorb, Decimal, Pow, Readable;
    RecordsFit(m, machine.policy);
    var n: U64, first := |RecordsBytes(MemberRecords(m))|, bytes[..BLOCK_SIZE];
    U64HasTwentyDigits(sequence);
    ExtendedHeaderStep(machine, position, first, PAX_HEADERS + Decimal(sequence), n);
    var m1 := machine.(state := ReadingPax(Local, position, n, []), format := Some(PaxFormat));
    FrameAbsorbed(machine, a, position, bytes, m1, PaxFrame(position, first, Local, n));
    AbsorbsHeader(a, position, first, n);
  }

  /** A framed member is the next member read, and the bytes behind its framing are what is left. */
  lemma FramedMemberReads(machine: Machine, a: Assembly, position: U64, bytes: seq<Byte>, sequence: U64, m: PaxMember)
    returns (block: Block)
    requires AtPaxBoundary(machine, a) && Readable(m, machine.policy)
    requires Fits(position, bytes, FramedLength(m)) && Framed(sequence, m, bytes[..FramedLength(m)])
    ensures NextMember(machine, a, position, bytes) == FramedRead(machine, a, position, bytes, m, block)
    ensures MemberLaid(block, sequence, m)
  {
    hide RecordsBytes, MemberRecords, TypedRecords, ValidateMember, NextMember, ParsePayload, LogicalHeaderOf, ExtensionLaid, MemberLaid,
         FitsOctal, Framed, FramedLength;
    block := FramingParts(bytes, sequence, m);
    RecordsFit(m, machine.policy);
    var n: U64, padded, typed := |RecordsBytes(MemberRecords(m))|, Padded(|RecordsBytes(MemberRecords(m))|), TypedRecords(m);
    MemberRecordsRead(m);
    ExtensionReads(machine, a, position, bytes, sequence, m);
    var m1 := machine.(state := ReadingPax(Local, position, n, []), format := Some(PaxFormat));
    var a1 := a.(extension := Some(PaxPayload(position, Local)));
    PaxCollected(m1, Local, position, n, [], a1, position + BLOCK_SIZE, bytes[BLOCK_SIZE..], typed);
    MemberHeaderReads(machine, a, position, bytes, padded, block, sequence, m);
  }

  lemma AbsorbsHeader(a: Assembly, position: U64, block: Block, n: U64)
    ensures Absorb(a, PaxFrame(position, block, Local, n)) == Ok(a.(extension := Some(PaxPayload(position, Local))))
  {
  }

  lemma PayloadInFraming(framing: seq<Byte>, bytes: seq<Byte>, records: seq<Byte>)
    requires |framing| == 2 * BLOCK_SIZE + Padded(|records|) <= |bytes| && framing == bytes[..|framing|]
    requires framing[BLOCK_SIZE..BLOCK_SIZE + Padded(|records|)] == NulPadded(records, Padded(|records|))
    ensures [] + bytes[BLOCK_SIZE..][..|records|] == records
  {
    var padded := framing[BLOCK_SIZE..BLOCK_SIZE + Padded(|records|)];
    assert padded[..|records|] == records;
    forall i | 0 <= i < |records| ensures bytes[BLOCK_SIZE + i] == padded[i] {
      assert framing[BLOCK_SIZE + i] == padded[i];
    }
    assert bytes[BLOCK_SIZE..][..|records|] == padded[..|records|];
  }

  /** The ordinary header behind the extended header's payload. */
  lemma MemberHeaderReads(
      machine: Machine, a: Assembly, position: U64, bytes: seq<Byte>, padded: nat, block: Block, sequence: U64, m: PaxMember)
    requires AtPaxBoundary(machine, a) && ValidateMember(m).None?
    requires Fits(position, bytes, 2 * BLOCK_SIZE + padded) && block == bytes[BLOCK_SIZE + padded..2 * BLOCK_SIZE + padded]
    requires MemberLaid(block, sequence, m)
    ensures var m2 := machine.(state := AwaitingUstarHeader(TypedRecords(m)), format := Some(PaxFormat));
            var a2 := a.(pending := a.pending.(localPax := Some(Logical.PaxExtension(position, Local, TypedRecords(m)))));
            var at := position + BLOCK_SIZE + padded;
            NextMember(m2, a2, at, bytes[BLOCK_SIZE..][padded..]) ==
            MemberRead(machine, a, m, position, WrittenHeader(m, at, block), at + BLOCK_SIZE, bytes[2 * BLOCK_SIZE + padded..])
  {
    hide UstarLayout, TypedRecords, HeaderName, ValidateMember, Step, NextMember, LogicalHeaderOf, FallbackSize, ModeOf, TypeflagOf;
    var m2 := machine.(state := AwaitingUstarHeader(TypedRecords(m)), format := Some(PaxFormat));
    var a2 := a.(pending := a.pending.(localPax := Some(Logical.PaxExtension(position, Local, TypedRecords(m)))));
    var at, rest := position + BLOCK_SIZE + padded, bytes[BLOCK_SIZE..][padded..];
    assert rest == bytes[BLOCK_SIZE + padded..];
    assert rest[..BLOCK_SIZE] == block && rest[BLOCK_SIZE..] == bytes[2 * BLOCK_SIZE + padded..];
    var link := if m.linkPath.Some? then m.linkPath.value else [];
    OrdinaryHeaderStep(m2, at, block, HeaderName(m.path, sequence).0, HeaderName(m.path, sequence).1, m, link);
    FrameAbsorbed(m2, a2, at, rest, m2.(state := MemberPayloadState(m.size)), HeaderFrame(WrittenHeader(m, at, block)));
  }

  lemma ZeroBlockSteps(m: Machine, position: U64, block: Block)
    requires IsZeroBlock(block)
    ensures m.state.AwaitingHeader? ==> Step(m, position, block) == Ok((m.(state := AwaitingSecondZero), None))
    ensures m.state.AwaitingSecondZero? ==> Step(m, position, block) == Ok((m.(state := Complete), None))
  {
  }

  lemma ZeroWindow(bytes: seq<Byte>, n: nat, lo: nat, hi: nat)
    requires lo <= hi <= n <= |bytes| && bytes[..n] == Zeros(n)
    ensures AllNul(bytes[lo..hi])
  {
    assert forall i :: lo <= i < hi ==> bytes[i] == bytes[..n][i];
  }

  /** The end marker ends the members. */
  lemma EndMarkerReads(machine: Machine, a: Assembly, position: U64, bytes: seq<Byte>)
    requires machine.state.AwaitingHeader? && Fits(position, bytes, 2 * BLOCK_SIZE) && bytes[..2 * BLOCK_SIZE] == END_MARKER
    ensures NextMember(machine, a, position, bytes) == MemberEnd
  {
    hide Step, NextFrame, NextMember, AllNul, Run, Absorb, Cleared, LogicalHeaderOf, ExtensionsFor;
    var m1, rest := machine.(state := AwaitingSecondZero), bytes[BLOCK_SIZE..];
    ZeroWindow(bytes, 2 * BLOCK_SIZE, 0, BLOCK_SIZE);
    ZeroWindow(bytes, 2 * BLOCK_SIZE, BLOCK_SIZE, 2 * BLOCK_SIZE);
    assert bytes[0..BLOCK_SIZE] == bytes[..BLOCK_SIZE] && rest[..BLOCK_SIZE] == bytes[BLOCK_SIZE..2 * BLOCK_SIZE];
    ZeroBlockSteps(machine, position, bytes[..BLOCK_SIZE]);
    ZeroBlockSteps(m1, position + BLOCK_SIZE, rest[..BLOCK_SIZE]);
    RunOneBlock(machine, position, bytes);
    RunOneBlock(m1, position + BLOCK_SIZE, rest);
    CompleteScan(machine.(state := Complete), position + 2 * BLOCK_SIZE, rest[BLOCK_SIZE..]);
    NextMemberUnfolds(machine, a, position, bytes);
  }
}
