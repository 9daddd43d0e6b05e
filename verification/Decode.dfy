/** Decoding members: effective names, the decode policy, and the fused archive reader. */
module Decode {
  import opened Octets
  import opened Numbers
  import opened PaxRecords
  import opened Pax
  import opened Framing
  import opened Grammar
  import opened Source
  import opened Logical
  import opened TarStream

  datatype Member =
    | FileMember(path: Text, position: U64, size: U64, executable: bool)
    | DirectoryMember(path: Text, position: U64)
    | SymbolicLinkMember(path: Text, position: U64, target: Text)
    | HardLinkMember(path: Text, position: U64, target: Text, size: U64)
    | SpecialMember(path: Text, position: U64, kind: UstarKind)

  datatype VendorPolicy = RejectUnknown | Ignore(vendors: set<Text>) | AllowUnknown

  datatype PaxDecodePolicy = PaxDecodePolicy(
    maxExtensionSize: U64,
    maxGlobalExtensionsSize: U64,
    allowNonUtf8VendorValues: bool,
    allowGlobalExtensions: bool,
    vendors: VendorPolicy,
    allowDuplicates: bool,
    allowGlobalMemberMetadata: bool)

  datatype DecodePolicy = DecodePolicy(
    allowGnu: bool, allowAllNulNumericFields: bool, maxGnuExtensionSize: U64, pax: PaxDecodePolicy)

  const DEFAULT_DECODE_POLICY :=
    DecodePolicy(true, true, 128 * 1024, PaxDecodePolicy(256 * 1024, 4 * 256 * 1024, true, true, RejectUnknown, false, false))

  function StreamPolicyOf(p: DecodePolicy): StreamPolicy
  {
    StreamPolicy(p.pax.maxExtensionSize, p.pax.maxGlobalExtensionsSize, p.allowAllNulNumericFields, p.maxGnuExtensionSize)
  }

  datatype Violation =
    | GnuArchive
    | GlobalPaxExtension
    | VendorExtension(vendor: Text, name: Text)
    | NonUtf8VendorValue(vendor: Text, name: Text)
    | DuplicateRecord(key: PaxKeyword)
    | GlobalMemberMetadata(key: PaxKeyword)

  datatype DecodeError =
    | FramingFailure(error: FrameError)
    | NotUtf8(position: U64, field: FieldName)
    | PolicyViolation(position: U64, violation: Violation)

  // --------------------------------------------------------- effective names

  /** A name from its pax record, or the header's own. A deleted name has no fallback. */
  function ResolvePaxText(position: U64, state: MemberExtensions, key: PaxKeyword, field: FieldName, headerValue: seq<Byte>):
    Result<seq<Byte>, FrameError>
    requires state.PaxState?
  {
    match StateRecord(state, key)
    case Some(PaxRecord(_, Value(Utf8String(text)))) => Ok(text)
    case Some(PaxRecord(_, Value(BinaryString(bytes)))) => Ok(bytes)
    case Some(PaxRecord(_, Deleted)) => Fail(position, DeletedPaxMetadata(field))
    case _ => Ok(headerValue)
  }

  /** A GNU name: everything before its terminator, with nothing but NULs behind. */
  function ParseGnuMetadata(metadata: GnuMetadata, kind: GnuKind): (r: Result<seq<Byte>, FrameError>)
    ensures r.Ok? <==> exists k :: 0 <= k < |metadata.payload| && 0 !in metadata.payload[..k] && AllNul(metadata.payload[k..])
    ensures r.Ok? ==> r.value < metadata.payload && 0 !in r.value && AllNul(metadata.payload[|r.value|..])
  {
    match Find(metadata.payload, 0)
    case None =>
      assert forall k :: 0 <= k < |metadata.payload| && AllNul(metadata.payload[k..]) ==> metadata.payload[k..][0] == 0;
      Fail(metadata.position, InvalidGnuMetadata(kind, false))
    case Some(end) =>
      NulTail(metadata.payload, end);
      if AllNul(metadata.payload[end..]) then Ok(metadata.payload[..end])
      else Fail(metadata.position, InvalidGnuMetadata(kind, true))
  }

  lemma NulTail(s: seq<Byte>, end: nat)
    requires end < |s| && s[end] == 0 && 0 !in s[..end]
    ensures (exists k :: 0 <= k < |s| && 0 !in s[..k] && AllNul(s[k..])) <==> AllNul(s[end..])
  {
    assert forall i :: 0 <= i < end ==> s[i] == s[..end][i] && s[i] != 0;
    assert forall k :: end < k <= |s| ==> s[..k][end] == 0;
    assert forall k :: 0 <= k < |s| && AllNul(s[k..]) ==> s[k..][0] == s[k] == 0;
  }

  function GnuName(metadata: Option<GnuMetadata>, kind: GnuKind, headerValue: seq<Byte>): Result<seq<Byte>, FrameError>
  {
    match metadata
    case None => Ok(headerValue)
    case Some(m) => ParseGnuMetadata(m, kind)
  }

  function EffectivePath(h: LogicalHeader, extensions: MemberExtensions): (r: Result<seq<Byte>, FrameError>)
    ensures r.Ok? ==> r.value != [] && 0 !in r.value
  {
    var path := match extensions
      case PaxState(_, _, _) => ResolvePaxText(h.position, extensions, PathKey, PathKeyword, h.path)
      case GnuState(longName, _) => GnuName(longName, LongName, h.path);
    match path
    case Err(e) => Err(e)
    case Ok(value) =>
      if value == [] then Fail(h.position, EmptyMemberPath)
      else if 0 in value then Fail(h.position, NulInMemberName(PathKeyword))
      else Ok(value)
  }

  function EffectiveLinkPath(h: LogicalHeader, extensions: MemberExtensions): (r: Result<seq<Byte>, FrameError>)
    ensures r.Ok? ==> 0 !in r.value
  {
    var path := match extensions
      case PaxState(_, _, _) => ResolvePaxText(h.position, extensions, LinkPathKey, LinkPathKeyword, h.linkName)
      case GnuState(_, longLink) => GnuName(longLink, LongLink, h.linkName);
    match path
    case Err(e) => Err(e)
    case Ok(value) => if 0 in value then Fail(h.position, NulInMemberName(LinkPathKeyword)) else Ok(value)
  }

  /** `all[i]` is the last record for `key`. */
  predicate LastFor(all: seq<PaxRecord>, key: PaxKeyword, i: nat)
  {
    i < |all| && all[i].keyword == key && forall j :: i < j < |all| ==> all[j].keyword != key
  }

  lemma {:induction false} LastRecordAt(all: seq<PaxRecord>, key: PaxKeyword, i: nat)
    requires LastFor(all, key, i)
    ensures LastRecord(all, key) == Some(all[i])
    decreases |all|
  {
    if i < |all| - 1 {
      LastRecordAt(all[..|all| - 1], key, i);
    }
  }

  /** All records that apply to a member, in the order they were read: the global ones, then its own. */
  function AppliedRecords(state: MemberExtensions): seq<PaxRecord>
    requires state.PaxState?
  {
    state.globals + if state.local.Some? then state.local.value.records else []
  }

  /** The record in force is the last of all that apply. */
  lemma RecordInForce(state: MemberExtensions, key: PaxKeyword)
    requires state.PaxState?
    ensures StateRecord(state, key) == LastRecord(AppliedRecords(state), key)
  {
    LastRecordConcat(state.globals, if state.local.Some? then state.local.value.records else [], key);
  }

  /** Where a pax name comes from: the last applied record decides, its own before any global one, else the header. */
  lemma PaxNamePrecedence(position: U64, state: MemberExtensions, key: PaxKeyword, field: FieldName, headerValue: seq<Byte>)
    requires state.PaxState?
    ensures var all := AppliedRecords(state); var name := ResolvePaxText(position, state, key, field, headerValue);
            && (forall i: nat :: LastFor(all, key, i) ==>
                  match all[i].value
                  case Deleted => name == Fail(position, DeletedPaxMetadata(field))
                  case Value(Utf8String(text)) => name == Ok(text)
                  case Value(BinaryString(bytes)) => name == Ok(bytes)
                  case _ => true)
            && ((forall i :: 0 <= i < |all| ==> all[i].keyword != key) ==> name == Ok(headerValue))
  {
    hide LastRecord, StateRecord, AppliedRecords;
    var all := AppliedRecords(state);
    RecordInForce(state, key);
    forall i: nat | LastFor(all, key, i) ensures StateRecord(state, key) == Some(all[i]) {
      LastRecordAt(all, key, i);
    }
  }

  /** The size in effect: the last applied `size` record's, which may not be a deleted one, else the header's own. */
  lemma SizePrecedence(position: U64, declared: U64, state: MemberExtensions)
    requires state.PaxState?
    ensures var all := AppliedRecords(state); var size := EffectiveSize(position, declared, StateRecord(state, SizeKey));
            && (forall i: nat :: LastFor(all, SizeKey, i) ==>
                  match all[i].value
                  case Deleted => size == Fail(position, DeletedPaxMetadata(SizeKeyword))
                  case Value(Number(n)) => size == Ok(n)
                  case _ => true)
            && ((forall i :: 0 <= i < |all| ==> all[i].keyword != SizeKey) ==> size == Ok(declared))
  {
    hide LastRecord, StateRecord, AppliedRecords;
    var all := AppliedRecords(state);
    RecordInForce(state, SizeKey);
    forall i: nat | LastFor(all, SizeKey, i) ensures StateRecord(state, SizeKey) == Some(all[i]) {
      LastRecordAt(all, SizeKey, i);
    }
  }

  /** A usable path, or what is wrong with it. */
  function UsablePath(position: U64, path: seq<Byte>): Result<seq<Byte>, FrameError>
  {
    if path == [] then Fail(position, EmptyMemberPath)
    else if 0 in path then Fail(position, NulInMemberName(PathKeyword))
    else Ok(path)
  }

  function UsableTarget(position: U64, target: seq<Byte>): Result<seq<Byte>, FrameError>
  {
    if 0 in target then Fail(position, NulInMemberName(LinkPathKeyword)) else Ok(target)
  }

  /** A GNU name read from its terminated payload. */
  predicate SpellsName(metadata: GnuMetadata, name: seq<Byte>)
  {
    name < metadata.payload && 0 !in name && AllNul(metadata.payload[|name|..])
  }

  /**
   * The member's path: under pax the last `path` record among globals and locals, else the header's; under GNU the
   * long name, else the header's. A deleted record has no fallback.
   */
  lemma PathPrecedence(h: LogicalHeader, extensions: MemberExtensions)
    ensures extensions.PaxState? ==>
              var all := AppliedRecords(extensions); var path := EffectivePath(h, extensions);
              && (forall i: nat :: LastFor(all, PathKey, i) ==>
                    match all[i].value
                    case Deleted => path == Fail(h.position, DeletedPaxMetadata(PathKeyword))
                    case Value(Utf8String(text)) => path == UsablePath(h.position, text)
                    case Value(BinaryString(bytes)) => path == UsablePath(h.position, bytes)
                    case _ => true)
              && ((forall i :: 0 <= i < |all| ==> all[i].keyword != PathKey) ==> path == UsablePath(h.position, h.path))
    ensures extensions.GnuState? && extensions.longName.None? ==> EffectivePath(h, extensions) == UsablePath(h.position, h.path)
    ensures extensions.GnuState? && extensions.longName.Some? ==>
              && (forall name :: SpellsName(extensions.longName.value, name) ==>
                    EffectivePath(h, extensions) == UsablePath(h.position, name))
              && ((forall name :: !SpellsName(extensions.longName.value, name)) ==> EffectivePath(h, extensions).Err?)
  {
    if extensions.PaxState? {
      PaxNamePrecedence(h.position, extensions, PathKey, PathKeyword, h.path);
    } else if extensions.longName.Some? {
      GnuNameSpelled(extensions.longName.value, LongName);
    }
  }

  /** The link target, by the same precedence over `linkpath` records, the long link name and the header's link name. */
  lemma LinkPathPrecedence(h: LogicalHeader, extensions: MemberExtensions)
    ensures extensions.PaxState? ==>
              var all := AppliedRecords(extensions); var target := EffectiveLinkPath(h, extensions);
              && (forall i: nat :: LastFor(all, LinkPathKey, i) ==>
                    match all[i].value
                    case Deleted => target == Fail(h.position, DeletedPaxMetadata(LinkPathKeyword))
                    case Value(Utf8String(text)) => target == UsableTarget(h.position, text)
                    case Value(BinaryString(bytes)) => target == UsableTarget(h.position, bytes)
                    case _ => true)
              && ((forall i :: 0 <= i < |all| ==> all[i].keyword != LinkPathKey) ==>
                    target == UsableTarget(h.position, h.linkName))
    ensures extensions.GnuState? && extensions.longLink.None? ==>
              EffectiveLinkPath(h, extensions) == UsableTarget(h.position, h.linkName)
    ensures extensions.GnuState? && extensions.longLink.Some? ==>
              && (forall name :: SpellsName(extensions.longLink.value, name) ==>
                    EffectiveLinkPath(h, extensions) == UsableTarget(h.position, name))
              && ((forall name :: !SpellsName(extensions.longLink.value, name)) ==> EffectiveLinkPath(h, extensions).Err?)
  {
    if extensions.PaxState? {
      PaxNamePrecedence(h.position, extensions, LinkPathKey, LinkPathKeyword, h.linkName);
    } else if extensions.longLink.Some? {
      GnuNameSpelled(extensions.longLink.value, LongLink);
    }
  }

  /** A payload spells at most one name, and that is the one read. */
  lemma GnuNameSpelled(metadata: GnuMetadata, kind: GnuKind)
    ensures forall name :: SpellsName(metadata, name) ==> ParseGnuMetadata(metadata, kind) == Ok(name)
    ensures ParseGnuMetadata(metadata, kind).Ok? ==> SpellsName(metadata, ParseGnuMetadata(metadata, kind).value)
  {
    forall name | SpellsName(metadata, name) ensures ParseGnuMetadata(metadata, kind) == Ok(name) {
      var payload := metadata.payload;
      assert payload[|name|..][0] == payload[|name|];
      assert forall i :: 0 <= i < |name| ==> payload[i] == name[i];
      var read := ParseGnuMetadata(metadata, kind);
      assert payload[..|name|] == name && read.Ok?;
      assert payload[|read.value|..][0] == payload[|read.value|];
      assert forall i :: 0 <= i < |read.value| ==> payload[i] == read.value[i];
    }
  }

  // ---------------------------------------------------------- decode policy

  predicate VendorAllowed(policy: PaxDecodePolicy, vendor: Text)
  {
    match policy.vendors
    case RejectUnknown => false
    case Ignore(vendors) => vendor in vendors
    case AllowUnknown => true
  }

  function VendorFault(policy: PaxDecodePolicy, record: PaxRecord): Option<Violation>
  {
    match record.keyword
    case VendorKey(vendor, name) =>
      if !VendorAllowed(policy, vendor) then Some(VendorExtension(vendor, name))
      else if !policy.allowNonUtf8VendorValues && record.value.Value? && record.value.content.Opaque?
              && !ValidUtf8(record.value.content.bytes) then Some(NonUtf8VendorValue(vendor, name))
      else None
    case _ => None
  }

  predicate NamesMember(key: PaxKeyword) { key == PathKey || key == LinkPathKey || key == SizeKey }

  function MetadataFault(record: PaxRecord): Option<Violation>
  {
    if NamesMember(record.keyword) then Some(GlobalMemberMetadata(record.keyword)) else None
  }

  function FirstVendorFault(policy: PaxDecodePolicy, records: seq<PaxRecord>): (r: Option<Violation>)
    ensures r.None? <==> forall i :: 0 <= i < |records| ==> VendorFault(policy, records[i]).None?
  {
    if records == [] then None
    else if VendorFault(policy, records[0]).Some? then VendorFault(policy, records[0])
    else FirstVendorFault(policy, records[1..])
  }

  function FirstMetadataFault(records: seq<PaxRecord>): (r: Option<Violation>)
    ensures r.None? <==> forall i :: 0 <= i < |records| ==> !NamesMember(records[i].keyword)
  {
    if records == [] then None
    else if MetadataFault(records[0]).Some? then MetadataFault(records[0])
    else FirstMetadataFault(records[1..])
  }

  /** The first keyword that came before, in `seen` or earlier in the records. */
  function FirstDuplicate(records: seq<PaxRecord>, seen: set<PaxKeyword>): Option<Violation>
  {
    if records == [] then None
    else if records[0].keyword in seen then Some(DuplicateRecord(records[0].keyword))
    else FirstDuplicate(records[1..], seen + {records[0].keyword})
  }

  lemma {:induction false} NoDuplicates(records: seq<PaxRecord>, seen: set<PaxKeyword>)
    ensures FirstDuplicate(records, seen).None? <==>
            DistinctKeywords(records) && forall i :: 0 <= i < |records| ==> records[i].keyword !in seen
  {
    if records != [] {
      var rest := records[1..];
      NoDuplicates(rest, seen + {records[0].keyword});
      assert forall i :: 0 < i < |records| ==> records[i] == rest[i - 1];
      if FirstDuplicate(records, seen).None? {
        forall i, j | 0 <= i < j < |records| ensures records[i].keyword != records[j].keyword {
          assert records[j] == rest[j - 1];
          if i > 0 { assert records[i] == rest[i - 1]; }
        }
      }
    }
  }

  /** The first objection to one extended header's records. */
  function PaxRecordsFault(policy: PaxDecodePolicy, kind: PaxKind, records: seq<PaxRecord>): Option<Violation>
  {
    if FirstVendorFault(policy, records).Some? then FirstVendorFault(policy, records)
    else if kind == Global && !policy.allowGlobalMemberMetadata && FirstMetadataFault(records).Some? then FirstMetadataFault(records)
    else if !policy.allowDuplicates then FirstDuplicate(records, {})
    else None
  }

  /** A vendor's record passes if the vendor is allowed or ignored by name, and its value is text or need not be. */
  predicate VendorPermitted(policy: PaxDecodePolicy, record: PaxRecord)
  {
    record.keyword.VendorKey? ==>
      && (policy.vendors.AllowUnknown? || (policy.vendors.Ignore? && record.keyword.vendor in policy.vendors.vendors))
      && (policy.allowNonUtf8VendorValues
          || record.value.Deleted? || (record.value.content.Opaque? ==> ValidUtf8(record.value.content.bytes)))
  }

  /** An extended header passes exactly when its vendors, its keywords and its repetitions are all permitted. */
  lemma RecordsPassIff(policy: PaxDecodePolicy, kind: PaxKind, records: seq<PaxRecord>)
    ensures PaxRecordsFault(policy, kind, records).None? <==>
            && (forall i :: 0 <= i < |records| ==> VendorPermitted(policy, records[i]))
            && (kind == Global && !policy.allowGlobalMemberMetadata ==>
                  forall i :: 0 <= i < |records| ==> records[i].keyword !in {PathKey, LinkPathKey, SizeKey})
            && (!policy.allowDuplicates ==> DistinctKeywords(records))
  {
    hide VendorFault, VendorPermitted, FirstVendorFault, FirstMetadataFault, FirstDuplicate;
    NoDuplicates(records, {});
    forall i | 0 <= i < |records| ensures VendorFault(policy, records[i]).None? <==> VendorPermitted(policy, records[i]) {
      VendorPasses(policy, records[i]);
    }
  }

  lemma VendorPasses(policy: PaxDecodePolicy, record: PaxRecord)
    ensures VendorFault(policy, record).None? <==> VendorPermitted(policy, record)
  {
    hide ValidUtf8;
  }

  /** Three passes over the records; the last remembers the keywords it has seen. */
  method CheckPaxRecords(policy: PaxDecodePolicy, kind: PaxKind, records: seq<PaxRecord>) returns (r: Option<Violation>)
    ensures r == PaxRecordsFault(policy, kind, records)
  {
    hide VendorFault;
    for i := 0 to |records|
      invariant FirstVendorFault(policy, records) == FirstVendorFault(policy, records[i..])
    {
      assert records[i..][1..] == records[i + 1..];
      var fault := VendorFault(policy, records[i]);
      if fault.Some? { return fault; }
    }
    if kind == Global && !policy.allowGlobalMemberMetadata {
      for i := 0 to |records|
        invariant FirstMetadataFault(records) == FirstMetadataFault(records[i..])
      {
        assert records[i..][1..] == records[i + 1..];
        var fault := MetadataFault(records[i]);
        if fault.Some? { return fault; }
      }
    }
    if !policy.allowDuplicates {
      r := CheckDuplicates(records);
      return;
    }
    return None;
  }

  method CheckDuplicates(records: seq<PaxRecord>) returns (r: Option<Violation>)
    ensures r == FirstDuplicate(records, {})
  {
    var keywords: set<PaxKeyword> := {};
    for i := 0 to |records|
      invariant FirstDuplicate(records, {}) == FirstDuplicate(records[i..], keywords)
    {
      assert records[i..][1..] == records[i + 1..];
      var keyword := records[i].keyword;
      if keyword in keywords { return Some(DuplicateRecord(keyword)); }
      keywords := keywords + {keyword};
    }
    return None;
  }

  function CheckGlobals(policy: DecodePolicy, extensions: seq<Logical.PaxExtension>): Option<DecodeError>
  {
    if extensions == [] then None
    else if !policy.pax.allowGlobalExtensions then Some(PolicyViolation(extensions[0].position, GlobalPaxExtension))
    else
      match PaxRecordsFault(policy.pax, Global, extensions[0].records)
      case Some(v) => Some(PolicyViolation(extensions[0].position, v))
      case None => CheckGlobals(policy, extensions[1..])
  }

  /** Every global header passes, not only the first; otherwise the first that does not is named. */
  lemma {:induction false} GlobalsPassIff(policy: DecodePolicy, extensions: seq<Logical.PaxExtension>)
    ensures CheckGlobals(policy, extensions).None? <==>
            extensions == [] || (policy.pax.allowGlobalExtensions
                                 && forall i :: 0 <= i < |extensions| ==> PaxRecordsFault(policy.pax, Global, extensions[i].records).None?)
    ensures CheckGlobals(policy, extensions).Some? ==>
              exists i :: 0 <= i < |extensions| && NamesGlobal(policy, extensions, i, CheckGlobals(policy, extensions).value)
  {
    hide PaxRecordsFault;
    if extensions != [] {
      var rest := extensions[1..];
      GlobalsPassIff(policy, rest);
      assert forall i :: 0 < i < |extensions| ==> extensions[i] == rest[i - 1];
      if !policy.pax.allowGlobalExtensions || PaxRecordsFault(policy.pax, Global, extensions[0].records).Some? {
        assert NamesGlobal(policy, extensions, 0, CheckGlobals(policy, extensions).value);
      } else if CheckGlobals(policy, rest).Some? {
        var i :| 0 <= i < |rest| && NamesGlobal(policy, rest, i, CheckGlobals(policy, rest).value);
        assert NamesGlobal(policy, extensions, i + 1, CheckGlobals(policy, rest).value);
      }
    }
  }

  /** The error names global header `i`, and all before it pass. */
  predicate NamesGlobal(policy: DecodePolicy, extensions: seq<Logical.PaxExtension>, i: nat, e: DecodeError)
    requires i < |extensions|
  {
    && (forall j :: 0 <= j < i ==> PaxRecordsFault(policy.pax, Global, extensions[j].records).None?)
    && e.PolicyViolation? && e.position == extensions[i].position
    && if policy.pax.allowGlobalExtensions then Some(e.violation) == PaxRecordsFault(policy.pax, Global, extensions[i].records)
       else i == 0 && e.violation == GlobalPaxExtension
  }

  /** Where the first header of a GNU group stands. */
  function GnuPosition(h: LogicalHeader, longName: Option<GnuMetadata>, longLink: Option<GnuMetadata>): U64
  {
    if longName.Some? && longLink.Some? then Min(longName.value.position, longLink.value.position)
    else if longName.Some? then longName.value.position
    else if longLink.Some? then longLink.value.position
    else h.position
  }

  function CheckFormat(policy: DecodePolicy, position: U64, format: ArchiveFormat): Option<DecodeError>
  {
    if format == GnuFormat && !policy.allowGnu then Some(PolicyViolation(position, GnuArchive)) else None
  }

  function CheckMember(policy: DecodePolicy, h: LogicalHeader, extensions: MemberExtensions): Option<DecodeError>
  {
    match extensions
    case PaxState(_, globals, local) =>
      if CheckGlobals(policy, globals).Some? then CheckGlobals(policy, globals)
      else if CheckFormat(policy, h.position, h.format).Some? then CheckFormat(policy, h.position, h.format)
      else if local.None? then None
      else
        (match PaxRecordsFault(policy.pax, Local, local.value.records)
         case Some(v) => Some(PolicyViolation(local.value.position, v))
         case None => None)
    case GnuState(longName, longLink) => CheckFormat(policy, GnuPosition(h, longName, longLink), h.format)
  }

  /** A member passes exactly when its global headers, its family and its own records all do. */
  lemma MemberPassesIff(policy: DecodePolicy, h: LogicalHeader, extensions: MemberExtensions)
    ensures CheckMember(policy, h, extensions).None? <==>
            && (h.format == GnuFormat ==> policy.allowGnu)
            && (extensions.PaxState? ==>
                  && (extensions.globalExtensions == []
                      || (policy.pax.allowGlobalExtensions
                          && forall i :: 0 <= i < |extensions.globalExtensions| ==>
                                PaxRecordsFault(policy.pax, Global, extensions.globalExtensions[i].records).None?))
                  && (extensions.local.Some? ==> PaxRecordsFault(policy.pax, Local, extensions.local.value.records).None?))
  {
    hide PaxRecordsFault, CheckGlobals;
    if extensions.PaxState? { GlobalsPassIff(policy, extensions.globalExtensions); }
  }

  // -------------------------------------------------------------- projection

  /** Any of the three execute bits. */
  predicate Executable(mode: U64) { mode % 2 == 1 || mode / 8 % 2 == 1 || mode / 64 % 2 == 1 }

  function ProjectMember(h: LogicalHeader, extensions: MemberExtensions): Result<Member, DecodeError>
  {
    match EffectivePath(h, extensions)
    case Err(e) => Err(FramingFailure(e))
    case Ok(path) =>
      if !ValidUtf8(path) then Err(NotUtf8(h.position, PathKeyword))
      else if h.kind != HardLink && h.kind != SymbolicLink then Ok(PlainMember(h, path))
      else
        match EffectiveLinkPath(h, extensions)
        case Err(e) => Err(FramingFailure(e))
        case Ok(target) =>
          if !ValidUtf8(target) then Err(NotUtf8(h.position, LinkPathKeyword))
          else if h.kind == SymbolicLink then Ok(SymbolicLinkMember(path, h.position, target))
          else Ok(HardLinkMember(path, h.position, target, h.effectiveSize))
  }

  function PlainMember(h: LogicalHeader, path: Text): Member
  {
    match h.kind
    case Regular => FileMember(path, h.position, h.effectiveSize, h.mode.Some? && Executable(h.mode.value))
    case Contiguous => FileMember(path, h.position, h.effectiveSize, h.mode.Some? && Executable(h.mode.value))
    case Directory => DirectoryMember(path, h.position)
    case other => SpecialMember(path, h.position, other)
  }

  function DecodeMember(policy: DecodePolicy, h: LogicalHeader, extensions: MemberExtensions): Result<Member, DecodeError>
  {
    match CheckMember(policy, h, extensions)
    case Some(e) => Err(e)
    case None => ProjectMember(h, extensions)
  }

  // ---------------------------------------------------------- whole archives

  datatype Decoded = Decoded(member: Member, payload: seq<Byte>)

  lemma {:induction false} FoundLeavesLess(m: Machine, a: Assembly, position: U64, bytes: seq<Byte>)
    requires NextMember(m, a, position, bytes).MemberFound?
    ensures |NextMember(m, a, position, bytes).rest| < |bytes|
    decreases |bytes|
  {
    hide NextFrame, Absorb;
    NextMemberUnfolds(m, a, position, bytes);
    var scan := NextFrame(m, position, bytes);
    FrameConsumes(m, position, bytes);
    if !scan.frame.HeaderFrame? {
      FoundLeavesLess(scan.machine, Absorb(a, scan.frame).value, scan.next, scan.rest);
    }
  }

  function Left(scan: MemberScan): nat { if scan.MemberFound? then |scan.rest| + 1 else 0 }

  /** What is found behind a member's payload. */
  function NextScan(scan: MemberScan): (r: MemberScan)
    requires scan.MemberFound? && Fits(scan.next, scan.rest, Padded(scan.header.effectiveSize))
    ensures Left(r) < Left(scan)
  {
    var padded := Padded(scan.header.effectiveSize);
    var m, position, bytes := AtBoundary(scan.machine), scan.next + padded, scan.rest[padded..];
    if NextMember(m, scan.assembly, position, bytes).MemberFound? then
      FoundLeavesLess(m, scan.assembly, position, bytes);
      NextMember(m, scan.assembly, position, bytes)
    else NextMember(m, scan.assembly, position, bytes)
  }

  /** Every member from here to the end marker with its payload, or nothing if anything is wrong. */
  function DecodeFrom(policy: DecodePolicy, scan: MemberScan): Option<seq<Decoded>>
    decreases Left(scan)
  {
    match scan
    case MemberFail(_) => None
    case MemberEnd => Some([])
    case MemberFound(_, _, header, extensions, next, rest) =>
      match DecodeMember(policy, header, extensions)
      case Err(_) => None
      case Ok(member) =>
        if !Fits(next, rest, Padded(header.effectiveSize)) then None
        else
          match DecodeFrom(policy, NextScan(scan))
          case None => None
          case Some(more) => Some([Decoded(member, rest[..header.effectiveSize])] + more)
  }

  const NO_ASSEMBLY := Assembly(NO_EXTENSIONS, None, [])

  /** The members of a whole archive. */
  function DecodeArchive(policy: DecodePolicy, bytes: seq<Byte>): Option<seq<Decoded>>
  {
    DecodeFrom(policy, NextMember(Start(StreamPolicyOf(policy)), NO_ASSEMBLY, 0, bytes))
  }

  lemma EndDecodes(policy: DecodePolicy)
    ensures DecodeFrom(policy, MemberEnd) == Some([])
  {
  }

  lemma FailureDecodes(policy: DecodePolicy, ahead: MemberScan, e: FrameError)
    ensures ahead == MemberFail(e) ==> DecodeFrom(policy, ahead) == None
  {
  }
}
