/** Pax members as they are laid down block by block, global headers in front, and that decoding finds the member described. */
module PaxGroups {
  import opened Octets
  import opened Pax
  import opened Framing
  import opened Grammar
  import opened Logical
  import opened RoundTrip
  import opened Decode
  import opened Layout
  import opened Groups

  /** An extended header, and what its payload reads as. */
  datatype PaxField = PaxField(header: HeaderText, payload: seq<Byte>, records: seq<PaxRecord>)

  function PaxLength(f: PaxField): nat { BLOCK_SIZE + Padded(|f.payload|) }

  predicate PaxHeader(f: PaxField, kind: PaxKind)
  {
    f.header.format == PaxFormat && f.header.typeflag == (if kind == Local then 120 else 103)
  }

  /** An extended header within the policy's limit, read in the charset that earlier global records leave. */
  predicate PaxFieldReads(policy: StreamPolicy, globals: seq<PaxRecord>, f: PaxField)
  {
    0 < |f.payload| <= policy.maxPaxExtensionSize && ParsePayload(f.payload, GlobalCharset(globals)) == Ok(f.records)
  }

  /** A reader at a member boundary of a pax archive. */
  predicate AtMember(m: Machine, a: Assembly)
  {
    m.state.AwaitingHeader? && m.format != Some(GnuFormat) && a.extension.None? && a.pending.localPax.None? && a.globals == m.globals
  }

  /** One extended header, read whole. */
  lemma PaxFieldRead(m: Machine, a: Assembly, kind: PaxKind, f: PaxField, position: U64, bytes: seq<Byte>)
    requires AtMember(m, a) && PaxHeader(f, kind) && PaxFieldReads(m.policy, m.globals, f)
    requires kind == Global ==> m.globalSize + |f.payload| <= m.policy.maxGlobalPaxExtensionsSize
    requires FieldAt(f.header, f.payload, bytes) && Fits(position, bytes, PaxLength(f))
    ensures NextMember(m, a, position, bytes) ==
            NextMember(Completed(m.(format := Some(PaxFormat),
                                    globalSize := if kind == Global then m.globalSize + |f.payload| else m.globalSize), kind, f.records),
                       WithExtension(a, position, kind, f.records), position + PaxLength(f), bytes[PaxLength(f)..])
  {
    hide NextMember, Step, Absorb, Laid, ParsePayload, GlobalCharset, Completed, WithExtension;
    var n: U64, block := |f.payload|, bytes[..BLOCK_SIZE];
    PaxHeaderRead(m, kind, f, position, block);
    var m1 := m.(state := ReadingPax(kind, position, n, []), format := Some(PaxFormat),
                 globalSize := if kind == Global then m.globalSize + n else m.globalSize);
    var a1, rest := a.(extension := Some(PaxPayload(position, kind))), bytes[BLOCK_SIZE..];
    PaxHeaderAbsorbed(a, position, block, kind, n);
    FrameAbsorbed(m, a, position, bytes, m1, PaxFrame(position, block, kind, n));
    assert [] + rest[..n] == f.payload;
    PaxCollected(m1, kind, position, n, [], a1, position + BLOCK_SIZE, rest, f.records);
    ExtensionAlike(a, a1, position, kind, f.records);
    CompletedAlike(m1.(state := m.state), m1, kind, f.records);
    assert rest[Padded(n)..] == bytes[PaxLength(f)..];
  }

  lemma ExtensionAlike(a: Assembly, a1: Assembly, position: U64, kind: PaxKind, records: seq<PaxRecord>)
    requires a1 == a.(extension := a1.extension)
    ensures WithExtension(a1, position, kind, records) == WithExtension(a, position, kind, records)
  {
  }

  lemma PaxHeaderAbsorbed(a: Assembly, position: U64, block: Block, kind: PaxKind, n: U64)
    ensures Absorb(a, PaxFrame(position, block, kind, n)) == Ok(a.(extension := Some(PaxPayload(position, kind))))
  {
  }

  lemma PaxHeaderRead(m: Machine, kind: PaxKind, f: PaxField, position: U64, block: Block)
    requires m.state.AwaitingHeader? && m.format != Some(GnuFormat) && PaxHeader(f, kind) && Laid(block, f.header)
    requires 0 < |f.payload| == f.header.size <= m.policy.maxPaxExtensionSize
    requires kind == Global ==> m.globalSize + |f.payload| <= m.policy.maxGlobalPaxExtensionsSize
    ensures var n: U64 := |f.payload|;
            Step(m, position, block) ==
            Ok((m.(state := ReadingPax(kind, position, n, []), format := Some(PaxFormat),
                   globalSize := if kind == Global then m.globalSize + n else m.globalSize), Some(PaxFrame(position, block, kind, n))))
  {
    hide ParseHeader, IsZeroBlock, Layout.IsHeader, Numbered, Named, UstarHeaderStep, GnuHeaderStep;
    HeaderReads(position, block, PaxFormat, f.header.typeflag, f.header.size);
  }

  function GlobalsLength(fields: seq<PaxField>): nat
  {
    if fields == [] then 0 else PaxLength(fields[0]) + GlobalsLength(fields[1..])
  }

  function GlobalBytes(fields: seq<PaxField>): nat
  {
    if fields == [] then 0 else |fields[0].payload| + GlobalBytes(fields[1..])
  }

  function AllRecords(fields: seq<PaxField>): seq<PaxRecord>
  {
    if fields == [] then [] else fields[0].records + AllRecords(fields[1..])
  }

  /** Global headers one behind the other, each read with the records of those before it. */
  predicate GlobalsLaid(policy: StreamPolicy, globals: seq<PaxRecord>, fields: seq<PaxField>, bytes: seq<Byte>)
    decreases |fields|
  {
    hide FieldAt, PaxFieldReads;
    fields == []
    || (&& PaxHeader(fields[0], Global) && FieldAt(fields[0].header, fields[0].payload, bytes) && PaxLength(fields[0]) <= |bytes|
        && PaxFieldReads(policy, globals, fields[0])
        && GlobalsLaid(policy, globals + fields[0].records, fields[1..], bytes[PaxLength(fields[0])..]))
  }

  /** The extensions that are attached, each positioned at its own header. */
  function GlobalExtensions(fields: seq<PaxField>, position: nat): seq<Logical.PaxExtension>
    requires position + GlobalsLength(fields) < U64_LIMIT
    decreases |fields|
  {
    if fields == [] then []
    else [Logical.PaxExtension(position, Global, fields[0].records)] + GlobalExtensions(fields[1..], position + PaxLength(fields[0]))
  }

  function BehindGlobals(m: Machine, fields: seq<PaxField>): Machine
    requires m.globalSize + GlobalBytes(fields) < U64_LIMIT
  {
    if fields == [] then m
    else m.(format := Some(PaxFormat), globalSize := m.globalSize + GlobalBytes(fields), globals := m.globals + AllRecords(fields))
  }

  function WithGlobals(a: Assembly, fields: seq<PaxField>, position: nat): Assembly
    requires position + GlobalsLength(fields) < U64_LIMIT
  {
    Assembly(a.pending.(globalPax := a.pending.globalPax + GlobalExtensions(fields, position)), a.extension, a.globals + AllRecords(fields))
  }

  lemma GlobalsUnfold(fields: seq<PaxField>, position: nat)
    requires fields != [] && position + GlobalsLength(fields) < U64_LIMIT
    ensures var f, rest := fields[0], fields[1..];
            && GlobalsLength(fields) == PaxLength(f) + GlobalsLength(rest) && GlobalBytes(fields) == |f.payload| + GlobalBytes(rest)
            && AllRecords(fields) == f.records + AllRecords(rest)
            && GlobalExtensions(fields, position) ==
               [Logical.PaxExtension(position, Global, f.records)] + GlobalExtensions(rest, position + PaxLength(f))
    ensures GlobalBytes([]) == 0 && AllRecords([]) == []
  {
  }

  /** Global headers taken one at a time come to all of them taken together. */
  lemma GlobalsStep(m: Machine, a: Assembly, fields: seq<PaxField>, position: nat)
    requires fields != [] && m.globalSize + GlobalBytes(fields) < U64_LIMIT && position + GlobalsLength(fields) < U64_LIMIT
    requires a.extension.None? && m.state.AwaitingHeader?
    ensures var f, rest, n := fields[0], fields[1..], PaxLength(fields[0]);
            && GlobalsLength(fields) == n + GlobalsLength(rest) && GlobalBytes(fields) == |f.payload| + GlobalBytes(rest)
            && BehindGlobals(OneGlobal(m, f), rest) == BehindGlobals(m, fields)
            && WithGlobals(WithExtension(a, position, Global, f.records), rest, position + n) == WithGlobals(a, fields, position)
  {
    hide GlobalsLength, GlobalBytes, AllRecords, GlobalExtensions, PaxLength;
    GlobalsUnfold(fields, position);
    var f, rest := fields[0], fields[1..];
    assert m.globals + f.records + AllRecords(rest) == m.globals + (f.records + AllRecords(rest));
    assert a.globals + f.records + AllRecords(rest) == a.globals + (f.records + AllRecords(rest));
    var first, more := Logical.PaxExtension(position, Global, f.records), GlobalExtensions(rest, position + PaxLength(f));
    assert a.pending.globalPax + [first] + more == a.pending.globalPax + ([first] + more);
    if rest == [] { assert m.globals + f.records + [] == m.globals + f.records; }
  }

  function OneGlobal(m: Machine, f: PaxField): Machine
    requires m.globalSize + |f.payload| < U64_LIMIT
  {
    m.(state := AwaitingHeader, format := Some(PaxFormat), globalSize := m.globalSize + |f.payload|, globals := m.globals + f.records)
  }

  lemma NoGlobals(m: Machine, a: Assembly, position: nat)
    requires position < U64_LIMIT
    ensures BehindGlobals(m, []) == m && WithGlobals(a, [], position) == a
  {
    assert a.globals + [] == a.globals && a.pending.globalPax + [] == a.pending.globalPax;
  }

  lemma StillAtMember(m: Machine, a: Assembly, f: PaxField, position: U64)
    requires AtMember(m, a) && m.globalSize + |f.payload| < U64_LIMIT
    ensures AtMember(OneGlobal(m, f), WithExtension(a, position, Global, f.records))
    ensures Completed(m.(format := Some(PaxFormat), globalSize := m.globalSize + |f.payload|), Global, f.records) == OneGlobal(m, f)
    ensures OneGlobal(m, f).policy == m.policy && OneGlobal(m, f).globals == m.globals + f.records
    ensures OneGlobal(m, f).globalSize == m.globalSize + |f.payload|
  {
  }

  lemma NoExtensionYet(m: Machine, a: Assembly)
    requires AtMember(m, a)
    ensures a.extension.None? && m.state.AwaitingHeader?
  {
  }

  /** All the global headers in front of a member. */
  lemma {:induction false} GlobalsRead(m: Machine, a: Assembly, fields: seq<PaxField>, position: U64, bytes: seq<Byte>)
    requires AtMember(m, a) && GlobalsLaid(m.policy, m.globals, fields, bytes) && Fits(position, bytes, GlobalsLength(fields))
    requires m.globalSize + GlobalBytes(fields) <= m.policy.maxGlobalPaxExtensionsSize
    ensures var n := GlobalsLength(fields);
            NextMember(m, a, position, bytes) ==
            NextMember(BehindGlobals(m, fields), WithGlobals(a, fields, position), position + n, bytes[n..])
    ensures AtMember(BehindGlobals(m, fields), WithGlobals(a, fields, position))
    decreases |fields|
  {
    hide NextMember, FieldAt, PaxFieldReads, PaxHeader, AtMember, WithGlobals, BehindGlobals, WithExtension, OneGlobal, PaxLength, Completed;
    if fields == [] {
      assert bytes[0..] == bytes;
      NoGlobals(m, a, position);
    } else {
      var f, rest, n := fields[0], fields[1..], PaxLength(fields[0]);
      NoExtensionYet(m, a);
      GlobalsStep(m, a, fields, position);
      PaxFieldRead(m, a, Global, f, position, bytes);
      StillAtMember(m, a, f, position);
      GlobalsRead(OneGlobal(m, f), WithExtension(a, position, Global, f.records), rest, position + n, bytes[n..]);
      assert bytes[n..][GlobalsLength(rest)..] == bytes[GlobalsLength(fields)..];
    }
  }

  /** The member's own header, behind its local records if it has any. */
  lemma PaxMemberStep(
      m: Machine, local: Option<seq<PaxRecord>>, t: HeaderText, kind: UstarKind, size: U64, position: U64, block: Block)
    requires m.format != Some(GnuFormat) && (if local.Some? then m.state == AwaitingUstarHeader(local.value) else m.state.AwaitingHeader?)
    requires Laid(block, t) && t.format == PaxFormat && IsTypeOf(t.typeflag, kind) && |t.uname| < 32 && |t.gname| < 32
    requires EffectiveSize(position, t.size, EffectiveRecord(local, m.globals, SizeKey)) == Ok(size)
    requires SizeFits(PaxFormat, kind, t.size) && SizeFits(PaxFormat, kind, size)
    requires m.policy.allowAllNulNumericFields || NothingBlank(t)
    ensures Step(m, position, block) ==
            Ok((m.(state := MemberPayloadState(size), format := Some(PaxFormat)), Some(HeaderFrame(Read(position, block, t, kind, size)))))
  {
    hide ParseHeader, IsZeroBlock, Layout.IsHeader, Numbered, Named, UstarHeader, NothingBlank, EffectiveRecord, EffectiveSize;
    HeaderReads(position, block, PaxFormat, t.typeflag, t.size);
    UstarReads(position, block, t, kind, EffectiveRecord(local, m.globals, SizeKey), size, m.policy.allowAllNulNumericFields);
    assert t.typeflag != TYPE_PAX_LOCAL && t.typeflag != TYPE_PAX_GLOBAL;
  }

  /** A pax member as it is laid down: global headers, perhaps an extended header of its own, then its header. */
  datatype PaxGroup = PaxGroup(globals: seq<PaxField>, local: Option<PaxField>, text: HeaderText, kind: UstarKind, size: U64)

  function LocalLength(local: Option<PaxField>): nat { if local.Some? then PaxLength(local.value) else 0 }

  function LocalRecords(local: Option<PaxField>): Option<seq<PaxRecord>>
  {
    if local.Some? then Some(local.value.records) else None
  }

  /** Where the member's own header stands in the group. */
  function HeaderAt(g: PaxGroup): nat { GlobalsLength(g.globals) + LocalLength(g.local) }

  predicate LocalLaid(policy: StreamPolicy, globals: seq<PaxRecord>, local: Option<PaxField>, bytes: seq<Byte>)
  {
    hide FieldAt, PaxFieldReads;
    local.Some? ==>
      PaxHeader(local.value, Local) && FieldAt(local.value.header, local.value.payload, bytes) && PaxFieldReads(policy, globals, local.value)
  }

  predicate MemberLaid(policy: StreamPolicy, g: PaxGroup, block: Block)
  {
    && Laid(block, g.text) && g.text.format == PaxFormat && IsTypeOf(g.text.typeflag, g.kind) && |g.text.uname| < 32 && |g.text.gname| < 32
    && SizeFits(PaxFormat, g.kind, g.text.size) && SizeFits(PaxFormat, g.kind, g.size)
    && (policy.allowAllNulNumericFields || NothingBlank(g.text))
  }

  /** The size in effect is that of the last `size` record, its own before the global ones, else the header's. */
  predicate SizeInEffect(globals: seq<PaxRecord>, g: PaxGroup)
  {
    match EffectiveRecord(LocalRecords(g.local), globals, SizeKey)
    case Some(record) => record.value == Value(Number(g.size))
    case None => g.size == g.text.size
  }

  predicate PaxGroupLaid(m: Machine, g: PaxGroup, bytes: seq<Byte>)
  {
    hide GlobalsLaid, LocalLaid, MemberLaid, SizeInEffect;
    var n, all := GlobalsLength(g.globals), m.globals + AllRecords(g.globals);
    && HeaderAt(g) + BLOCK_SIZE <= |bytes| && m.globalSize + GlobalBytes(g.globals) <= m.policy.maxGlobalPaxExtensionsSize
    && GlobalsLaid(m.policy, m.globals, g.globals, bytes) && LocalLaid(m.policy, all, g.local, bytes[n..])
    && MemberLaid(m.policy, g, bytes[HeaderAt(g)..][..BLOCK_SIZE]) && SizeInEffect(all, g)
  }

  /** What is handed out with a member of the group. */
  function PaxAttached(globals: seq<PaxRecord>, g: PaxGroup, position: nat): MemberExtensions
    requires position + HeaderAt(g) < U64_LIMIT
  {
    PaxState(Slots(globals + AllRecords(g.globals)), GlobalExtensions(g.globals, position),
             if g.local.Some? then Some(Logical.PaxExtension(position + GlobalsLength(g.globals), Local, g.local.value.records)) else None)
  }

  lemma BehindAll(m: Machine, a: Assembly, fields: seq<PaxField>, position: nat)
    requires m.globalSize + GlobalBytes(fields) < U64_LIMIT && position + GlobalsLength(fields) < U64_LIMIT
    requires a == Assembly(NO_EXTENSIONS, None, m.globals)
    ensures BehindGlobals(m, fields).globals == m.globals + AllRecords(fields) && BehindGlobals(m, fields).policy == m.policy
    ensures WithGlobals(a, fields, position) ==
            Assembly(NO_EXTENSIONS.(globalPax := GlobalExtensions(fields, position)), None, m.globals + AllRecords(fields))
  {
    hide GlobalExtensions, GlobalBytes, GlobalsLength;
    assert [] + GlobalExtensions(fields, position) == GlobalExtensions(fields, position);
    if fields == [] { assert m.globals + [] == m.globals; }
  }

  /** Machine and reader once the group's own extended header has been read. */
  function WithLocal(m: Machine, local: Option<PaxField>): Machine
  {
    if local.Some? then m.(state := AwaitingUstarHeader(local.value.records), format := Some(PaxFormat)) else m
  }

  function LocalAttached(a: Assembly, local: Option<PaxField>, position: U64): Assembly
  {
    if local.Some? then
      a.(pending := a.pending.(localPax := Some(Logical.PaxExtension(position, Local, local.value.records))), extension := None)
    else a
  }

  lemma LocalRead(m: Machine, a: Assembly, g: PaxGroup, position: U64, bytes: seq<Byte>)
    requires AtMember(m, a) && LocalLaid(m.policy, m.globals, g.local, bytes) && Fits(position, bytes, LocalLength(g.local))
    ensures var n := LocalLength(g.local);
            NextMember(m, a, position, bytes) ==
            NextMember(WithLocal(m, g.local), LocalAttached(a, g.local, position), position + n, bytes[n..])
  {
    hide NextMember, FieldAt, PaxFieldReads, PaxHeader;
    if g.local.Some? {
      PaxFieldRead(m, a, Local, g.local.value, position, bytes);
    } else {
      assert bytes[0..] == bytes;
    }
  }

  lemma SizeTakesEffect(globals: seq<PaxRecord>, g: PaxGroup, position: U64)
    requires SizeInEffect(globals, g)
    ensures EffectiveSize(position, g.text.size, EffectiveRecord(LocalRecords(g.local), globals, SizeKey)) == Ok(g.size)
  {
    hide EffectiveRecord;
  }

  lemma HeaderRead(m: Machine, a: Assembly, g: PaxGroup, position: U64, bytes: seq<Byte>)
    requires m.format != Some(GnuFormat)
    requires if g.local.Some? then m.state == AwaitingUstarHeader(g.local.value.records) else m.state.AwaitingHeader?
    requires Fits(position, bytes, BLOCK_SIZE) && MemberLaid(m.policy, g, bytes[..BLOCK_SIZE]) && SizeInEffect(m.globals, g)
    ensures NextMember(m, a, position, bytes) ==
            MemberFound(m.(state := MemberPayloadState(g.size), format := Some(PaxFormat)), Cleared(a),
                        LogicalText(position, g.text, g.kind, g.size), PaxState(Slots(a.globals), a.pending.globalPax, a.pending.localPax),
                        position + BLOCK_SIZE, bytes[BLOCK_SIZE..])
  {
    hide NextMember, Step, EffectiveRecord, EffectiveSize, SizeInEffect, LogicalHeaderOf, Slots, NothingBlank, IsTypeOf, IsHeader, Numbered,
         Named;
    var block := bytes[..BLOCK_SIZE];
    SizeTakesEffect(m.globals, g, position);
    PaxMemberStep(m, LocalRecords(g.local), g.text, g.kind, g.size, position, block);
    FrameAbsorbed(m, a, position, bytes, m.(state := MemberPayloadState(g.size), format := Some(PaxFormat)),
                  HeaderFrame(Read(position, block, g.text, g.kind, g.size)));
    LogicalReads(position, block, g.text, g.kind, g.size);
  }

  /** A pax group is read as one member, with every record that applies to it attached. */
  lemma PaxGroupReads(m: Machine, g: PaxGroup, position: U64, bytes: seq<Byte>)
    requires m.state.AwaitingHeader? && m.format != Some(GnuFormat) && PaxGroupLaid(m, g, bytes)
    requires Fits(position, bytes, HeaderAt(g) + BLOCK_SIZE)
    ensures var n := HeaderAt(g); var all := m.globals + AllRecords(g.globals);
            NextMember(m, Assembly(NO_EXTENSIONS, None, m.globals), position, bytes) ==
            MemberFound(BehindGlobals(m, g.globals).(state := MemberPayloadState(g.size), format := Some(PaxFormat)),
                        Assembly(NO_EXTENSIONS, None, all), LogicalText(position + n, g.text, g.kind, g.size),
                        PaxAttached(m.globals, g, position), position + n + BLOCK_SIZE, bytes[n + BLOCK_SIZE..])
  {
    hide NextMember, Step, Laid, GlobalsLaid, LocalLaid, MemberLaid, SizeInEffect, GlobalExtensions, AllRecords, LogicalHeaderOf, Slots,
         GlobalBytes, GlobalsLength;
    var a, n := Assembly(NO_EXTENSIONS, None, m.globals), GlobalsLength(g.globals);
    GlobalsRead(m, a, g.globals, position, bytes);
    BehindAll(m, a, g.globals, position);
    var m1, a1 := BehindGlobals(m, g.globals), WithGlobals(a, g.globals, position);
    LocalRead(m1, a1, g, position + n, bytes[n..]);
    assert bytes[n..][LocalLength(g.local)..] == bytes[HeaderAt(g)..];
    var m2, a2 := WithLocal(m1, g.local), LocalAttached(a1, g.local, position + n);
    HeaderRead(m2, a2, g, position + HeaderAt(g), bytes[HeaderAt(g)..]);
  }

  /** The name that applies: the last record's for this key, the member's own before the global ones, else the header's. */
  predicate NamedByRecords(globals: seq<PaxRecord>, local: Option<seq<PaxRecord>>, key: PaxKeyword, short: seq<Byte>, name: seq<Byte>)
  {
    match EffectiveRecord(local, globals, key)
    case Some(record) => record.value.Value? && (if record.value.content.Utf8String? then record.value.content.text == name
                                                 else record.value.content == BinaryString(name))
    case None => name == short
  }

  lemma PaxNamesEffective(
      h: LogicalHeader, globals: seq<PaxRecord>, extensions: seq<Logical.PaxExtension>, local: Option<Logical.PaxExtension>,
      path: seq<Byte>, target: seq<Byte>)
    requires var own := if local.Some? then Some(local.value.records) else None;
             NamedByRecords(globals, own, PathKey, h.path, path) && NamedByRecords(globals, own, LinkPathKey, h.linkName, target)
    requires UsableNames(path, target)
    ensures EffectivePath(h, PaxState(Slots(globals), extensions, local)) == Ok(path)
    ensures EffectiveLinkPath(h, PaxState(Slots(globals), extensions, local)) == Ok(target)
  {
    hide LastRecord, Slots, ValidUtf8;
    SlotsAnswerAsHistory(globals);
  }

  /** The decode policy has nothing against the group's global headers, nor against its own records. */
  predicate PaxPermitted(policy: PaxDecodePolicy, g: PaxGroup)
  {
    && (g.globals == [] || (policy.allowGlobalExtensions
                            && forall i :: 0 <= i < |g.globals| ==> PaxRecordsFault(policy, Global, g.globals[i].records).None?))
    && (g.local.Some? ==> PaxRecordsFault(policy, Local, g.local.value.records).None?)
  }

  lemma {:induction false} ExtensionRecords(fields: seq<PaxField>, position: nat)
    requires position + GlobalsLength(fields) < U64_LIMIT
    ensures |GlobalExtensions(fields, position)| == |fields|
    ensures forall i :: 0 <= i < |fields| ==> GlobalExtensions(fields, position)[i].records == fields[i].records
    decreases |fields|
  {
    if fields != [] {
      ExtensionRecords(fields[1..], position + PaxLength(fields[0]));
      assert forall i :: 0 < i < |fields| ==> fields[i] == fields[1..][i - 1];
    }
  }

  lemma PermittedPasses(policy: DecodePolicy, h: LogicalHeader, globals: seq<PaxRecord>, g: PaxGroup, position: nat)
    requires h.format == PaxFormat && position + HeaderAt(g) < U64_LIMIT
    ensures CheckMember(policy, h, PaxAttached(globals, g, position)).None? <==> PaxPermitted(policy.pax, g)
  {
    hide PaxRecordsFault, Slots, CheckMember, GlobalExtensions;
    MemberPassesIff(policy, h, PaxAttached(globals, g, position));
    ExtensionRecords(g.globals, position);
  }

  /**
   * A pax group, with any global headers in front and with or without an extended header of its own, decodes to the
   * member its records and its fields describe, exactly when the policy has nothing against the records.
   */
  lemma PaxGroupDecodes(
      policy: DecodePolicy, m: Machine, g: PaxGroup, position: U64, bytes: seq<Byte>, path: Text, target: Text)
    requires m.state.AwaitingHeader? && m.format != Some(GnuFormat) && PaxGroupLaid(m, g, bytes)
    requires Fits(position, bytes, HeaderAt(g) + BLOCK_SIZE) && UsableNames(path, target)
    requires var all, own := m.globals + AllRecords(g.globals), LocalRecords(g.local);
             NamedByRecords(all, own, PathKey, PathText(g.text), path) && NamedByRecords(all, own, LinkPathKey, g.text.linkName, target)
    ensures var found := NextMember(m, Assembly(NO_EXTENSIONS, None, m.globals), position, bytes); var at := position + HeaderAt(g);
            && found.MemberFound? && found.header == LogicalText(at, g.text, g.kind, g.size)
            && found.next == at + BLOCK_SIZE && found.rest == bytes[HeaderAt(g) + BLOCK_SIZE..]
            && (if PaxPermitted(policy.pax, g) then
                  DecodeMember(policy, found.header, found.extensions) == Ok(Described(g.text.(size := g.size), g.kind, path, target, at))
                else DecodeMember(policy, found.header, found.extensions).Err?)
  {
    hide NextMember, EffectivePath, EffectiveLinkPath, ProjectMember, PaxGroupLaid, ValidUtf8, Described, Slots, CheckMember, PaxPermitted,
         GlobalExtensions, AllRecords, UsableNames, NamedByRecords, GlobalsLength, LocalLength;
    PaxGroupReads(m, g, position, bytes);
    var h, all := LogicalText(position + HeaderAt(g), g.text, g.kind, g.size), m.globals + AllRecords(g.globals);
    FamilyOf(m, g, bytes);
    PermittedPasses(policy, h, m.globals, g, position);
    var local := PaxAttached(m.globals, g, position).local;
    PaxNamesEffective(h, all, GlobalExtensions(g.globals, position), local, path, target);
    ProjectsDescribed(h, PaxAttached(m.globals, g, position), g.text.(size := g.size), path, target);
  }

  lemma FamilyOf(m: Machine, g: PaxGroup, bytes: seq<Byte>)
    requires PaxGroupLaid(m, g, bytes)
    ensures g.text.format == PaxFormat
  {
    hide Laid;
    assert MemberLaid(m.policy, g, bytes[HeaderAt(g)..][..BLOCK_SIZE]);
  }
}
