/** Framing one member for writing: an extended header with its records, then the ordinary header. */
module Write {
  import opened Octets
  import opened Numbers
  import opened Header
  import opened PaxRecords
  import opened Pax
  import opened Framing

  datatype PaxMember = PaxMember(path: Text, kind: UstarKind, size: U64, linkPath: Option<Text>, executable: bool)

  datatype TextField = PathField | LinkPathField

  datatype FramingWriteError =
    | UnsupportedMemberKind(kind: UstarKind)
    | InvalidPayloadSize(kind: UstarKind, size: U64)
    | MissingLinkPath
    | UnexpectedLinkPath(kind: UstarKind)
    | InvalidText(field: TextField)
    | InvalidPaxRecordKeyword
    | DirectoryRequiredPathSuffix(kind: UstarKind)
    | ExtendedHeaderTooLarge(size: U64)
    | WriteOverflow

  /** A growable output buffer. */
  class ByteBuffer {
    var bytes: seq<Byte>

    constructor ()
      ensures bytes == []
    {
      bytes := [];
    }
  }

  // -------------------------------------------------------------- validation

  predicate InvalidTextValue(value: Text) { value == [] || 0 in value }

  /** What follows the last `/`. */
  function LastComponent(path: seq<Byte>): (c: seq<Byte>)
    ensures |c| <= |path| && c == path[|path| - |c|..] && SLASH !in c
    ensures |c| < |path| ==> path[|path| - |c| - 1] == SLASH
  {
    if path == [] || path[|path| - 1] == SLASH then []
    else LastComponent(path[..|path| - 1]) + [path[|path| - 1]]
  }

  /** A final `/`, `.` or `..` makes a path mean a directory. */
  predicate RequiresDirectory(path: Text)
  {
    (path != [] && path[|path| - 1] == SLASH) || LastComponent(path) in [[DOT], [DOT, DOT]]
  }

  function ValidateMember(m: PaxMember): Option<FramingWriteError>
  {
    if InvalidTextValue(m.path) then Some(InvalidText(PathField))
    else if m.kind != Directory && RequiresDirectory(m.path) then Some(DirectoryRequiredPathSuffix(m.kind))
    else
      match m.kind
      case Regular => if m.linkPath.Some? then Some(UnexpectedLinkPath(m.kind)) else None
      case Directory =>
        if m.linkPath.Some? then Some(UnexpectedLinkPath(m.kind))
        else if m.size != 0 then Some(InvalidPayloadSize(m.kind, m.size)) else None
      case SymbolicLink =>
        if m.size != 0 then Some(InvalidPayloadSize(m.kind, m.size))
        else if m.linkPath.None? then Some(MissingLinkPath)
        else if InvalidTextValue(m.linkPath.value) then Some(InvalidText(LinkPathField)) else None
      case _ => Some(UnsupportedMemberKind(m.kind))
  }

  /** Valid members have a usable path, data only in regular files, and a target exactly when they are links. */
  lemma ValidMembers(m: PaxMember)
    ensures ValidateMember(m).None? <==>
            && m.path != [] && 0 !in m.path
            && (m.kind == Regular || m.kind == Directory || m.kind == SymbolicLink)
            && (m.kind == Directory || !RequiresDirectory(m.path))
            && (m.size > 0 ==> m.kind == Regular)
            && (m.linkPath.Some? <==> m.kind == SymbolicLink)
            && (m.linkPath.Some? ==> m.linkPath.value != [] && 0 !in m.linkPath.value)
  {
    hide RequiresDirectory, ValidUtf8;
  }

  // ----------------------------------------------------------------- records

  /** A keyword's namespace and, for extensible ones, its name. */
  function Components(key: PaxKeyword): (Text, Option<Text>)
  {
    match key
    case AtimeKey => (Ascii(KW_ATIME), None)
    case CharsetKey => (Ascii(KW_CHARSET), None)
    case CommentKey => (Ascii(KW_COMMENT), None)
    case CtimeKey => (Ascii(KW_CTIME), None)
    case GidKey => (Ascii(KW_GID), None)
    case GnameKey => (Ascii(KW_GNAME), None)
    case HdrCharsetKey => (Ascii(KW_HDRCHARSET), None)
    case LinkPathKey => (Ascii(KW_LINKPATH), None)
    case MtimeKey => (Ascii(KW_MTIME), None)
    case PathKey => (Ascii(KW_PATH), None)
    case SizeKey => (Ascii(KW_SIZE), None)
    case UidKey => (Ascii(KW_UID), None)
    case UnameKey => (Ascii(KW_UNAME), None)
    case RealtimeKey(name) => (Ascii(KW_REALTIME), Some(name))
    case SecurityKey(name) => (Ascii(KW_SECURITY), Some(name))
    case VendorKey(vendor, name) => (vendor, Some(name))
  }

  function Ascii(s: seq<Byte>): (t: Text)
    requires forall i :: 0 <= i < |s| ==> s[i] < 0x80
    ensures t == s
  {
    AsciiIsUtf8(s);
    s
  }

  lemma {:induction false} Utf8Concat(a: Text, b: Text)
    ensures ValidUtf8(a + b)
    decreases |a|
  {
    if a == [] {
      assert a + b == b;
    } else {
      var n := CharLength(a);
      assert (a + b)[n..] == a[n..] + b;
      Utf8Concat(a[n..], b);
    }
  }

  /** The keyword as it is printed. */
  function KeywordText(key: PaxKeyword): Text
  {
    var (namespace, name) := Components(key);
    if name.None? then namespace
    else
      Utf8Concat(Ascii([DOT]), name.value);
      Utf8Concat(namespace, [DOT] + name.value);
      namespace + ([DOT] + name.value)
  }

  /** The record that carries `value` under `key`. */
  function RecordFor(key: PaxKeyword, value: seq<Byte>): RawRecord
  {
    RawRecord(KeywordText(key), value)
  }

  predicate AcceptableKeyword(key: PaxKeyword)
  {
    var (namespace, name) := Components(key);
    && namespace != [] && EQUALS !in namespace
    && (name.Some? ==> name.value != [] && EQUALS !in name.value)
  }

  /** Appends one record; lengths that overflow a machine word are refused before anything is written. */
  method AppendPaxRecord(output: ByteBuffer, key: PaxKeyword, value: seq<Byte>) returns (r: Option<FramingWriteError>)
    modifies output
    ensures r.None? ==> AcceptableKeyword(key) && output.bytes == old(output.bytes) + RecordBytes(RecordFor(key, value))
    ensures r.Some? ==> output.bytes == old(output.bytes)
    ensures r == Some(InvalidPaxRecordKeyword) <==> !AcceptableKeyword(key)
    ensures AcceptableKeyword(key) ==>
              (r == Some(WriteOverflow) <==> |old(output.bytes)| + |RecordBytes(RecordFor(key, value))| >= U64_LIMIT)
    ensures r.None? || r == Some(InvalidPaxRecordKeyword) || r == Some(WriteOverflow)
  {
    hide SelfCountingLength, Components;
    if !AcceptableKeyword(key) {
      return Some(InvalidPaxRecordKeyword);
    }
    var len := RecordLength(key, value);
    RecordStatesItsLength(RecordFor(key, value));
    if len.None? || |output.bytes| + len.value >= U64_LIMIT {
      return Some(WriteOverflow);
    }
    AppendRecordWithLength(output, key, value, len.value);
    return None;
  }

  /** The record's total length, counting its own digits; `None` past the machine word. */
  function RecordLength(key: PaxKeyword, value: seq<Byte>): (r: Option<U64>)
    ensures var len := SelfCountingLength(|KeywordText(key)| + |value| + 3);
            r == if len < U64_LIMIT then Some(len) else None
  {
    var suffix := |KeywordText(key)| + |value| + 3;
    SelfCountingLengthIsLeast(suffix);
    if suffix >= U64_LIMIT then None
    else
      var tentative := ILog10(suffix) + 1 + suffix;
      TentativeIsBelow(suffix);
      if tentative >= U64_LIMIT then None
      else if ILog10(tentative) + 1 + suffix >= U64_LIMIT then None
      else Some(ILog10(tentative) + 1 + suffix)
  }

  lemma TentativeIsBelow(suffix: nat)
    requires suffix > 0
    ensures ILog10(suffix) + 1 + suffix <= SelfCountingLength(suffix) && suffix < SelfCountingLength(suffix)
    ensures SelfCountingLength(suffix) == ILog10(ILog10(suffix) + 1 + suffix) + 1 + suffix
  {
    ILog10CountsDigits(suffix);
    ILog10CountsDigits(ILog10(suffix) + 1 + suffix);
    DecimalLengthMonotone(suffix, ILog10(suffix) + 1 + suffix);
  }

  method AppendRecordWithLength(payload: ByteBuffer, key: PaxKeyword, value: seq<Byte>, len: U64)
    requires len == SelfCountingLength(|KeywordText(key)| + |value| + 3)
    modifies payload
    ensures payload.bytes == old(payload.bytes) + RecordBytes(RecordFor(key, value))
  {
    hide SelfCountingLength, Decimal, KeywordText, RecordBytes;
    ghost var before := payload.bytes;
    AppendDecimal(payload, len);
    payload.bytes := payload.bytes + [SPACE];
    AppendKeyword(payload, key);
    payload.bytes := payload.bytes + [EQUALS];
    payload.bytes := payload.bytes + value;
    payload.bytes := payload.bytes + [NEWLINE];
    RecordPieces(before, Decimal(len), KeywordText(key), value);
    RecordWithLength(key, value, len);
  }

  /** A namespaced keyword is its namespace, a dot and its name. */
  method AppendKeyword(payload: ByteBuffer, key: PaxKeyword)
    modifies payload
    ensures payload.bytes == old(payload.bytes) + KeywordText(key)
  {
    hide Components, KeywordText, ValidUtf8;
    KeywordParts(key, payload.bytes);
    var (namespace, name) := Components(key);
    payload.bytes := payload.bytes + namespace;
    if name.Some? {
      payload.bytes := payload.bytes + [DOT];
      payload.bytes := payload.bytes + name.value;
    }
  }

  lemma KeywordParts(key: PaxKeyword, before: seq<Byte>)
    ensures var (namespace, name) := Components(key);
            before + KeywordText(key) == if name.None? then before + namespace else before + namespace + [DOT] + name.value
  {
    hide Components, ValidUtf8;
    var (namespace, name) := Components(key);
    if name.Some? {
      assert before + (namespace + ([DOT] + name.value)) == before + namespace + [DOT] + name.value;
    }
  }

  lemma RecordWithLength(key: PaxKeyword, value: seq<Byte>, len: U64)
    requires len == SelfCountingLength(|KeywordText(key)| + |value| + 3)
    ensures RecordBytes(RecordFor(key, value)) == Line(Decimal(len), Content(RawRecord(KeywordText(key), value)))
  {
    hide SelfCountingLength, Decimal, KeywordText;
  }

  lemma RecordPieces(before: seq<Byte>, length: seq<Byte>, keyword: Text, value: seq<Byte>)
    ensures before + length + [SPACE] + keyword + [EQUALS] + value + [NEWLINE]
            == before + Line(length, Content(RawRecord(keyword, value)))
  {
  }

  method AppendDecimal(output: ByteBuffer, value: U64)
    modifies output
    ensures output.bytes == old(output.bytes) + Decimal(value)
  {
    var buffer := new Byte[20](_ => 0);
    var start := DecimalU64(value, buffer);
    output.bytes := output.bytes + buffer[start..];
  }

  // ------------------------------------------------------------------- names

  /** A name and prefix that rejoin to the path, split at a `/` (or not at all if it is short). */
  predicate UstarSplit(path: seq<Byte>, prefix: seq<Byte>, name: seq<Byte>)
  {
    && |name| <= 100 && |prefix| <= 155
    && path == if prefix == [] then name else prefix + [SLASH] + name
  }

  predicate SplitsAt(path: seq<Byte>, k: nat)
    requires k < |path|
  {
    path[k] == SLASH && 0 < k <= 155 && 0 < |path| - k - 1 <= 100
  }

  /** The split the writer picks: none needed, or the last separator that leaves both parts in their fields. */
  function SplitUstarPath(path: seq<Byte>, limit: nat): (r: Option<(seq<Byte>, seq<Byte>)>)
    requires limit <= |path|
  {
    if |path| <= 100 then Some(([], path))
    else if limit == 0 then None
    else if SplitsAt(path, limit - 1) then Some((path[..limit - 1], path[limit..]))
    else SplitUstarPath(path, limit - 1)
  }

  /** A split rejoins to the path, and one is found whenever there is one. */
  lemma {:induction false} SplitRejoins(path: seq<Byte>, limit: nat)
    requires limit <= |path|
    ensures SplitUstarPath(path, limit).Some? ==>
              UstarSplit(path, SplitUstarPath(path, limit).value.0, SplitUstarPath(path, limit).value.1)
    ensures SplitUstarPath(path, limit).None? <==> |path| > 100 && forall k :: 0 <= k < limit ==> !SplitsAt(path, k)
  {
    if |path| > 100 && limit > 0 {
      if SplitsAt(path, limit - 1) {
        assert path == path[..limit - 1] + [SLASH] + path[limit..];
      } else {
        SplitRejoins(path, limit - 1);
      }
    }
  }

  /** The whole path fits a ustar header some way exactly when the writer finds a split. */
  lemma SplitIsComplete(path: seq<Byte>)
    ensures SplitUstarPath(path, |path|).Some? <==>
            exists prefix, name :: UstarSplit(path, prefix, name) && (name != [] || path == [])
  {
    SplitRejoins(path, |path|);
    if SplitUstarPath(path, |path|).Some? {
      var (prefix, name) := SplitUstarPath(path, |path|).value;
      assert UstarSplit(path, prefix, name);
      SplitNonempty(path, |path|);
    }
    if prefix, name :| UstarSplit(path, prefix, name) && (name != [] || path == []) {
      if |path| > 100 {
        assert SplitsAt(path, |prefix|);
      }
    }
  }

  lemma {:induction false} SplitNonempty(path: seq<Byte>, limit: nat)
    requires limit <= |path| && SplitUstarPath(path, limit).Some?
    ensures SplitUstarPath(path, limit).value.1 != [] || path == []
  {
    if |path| > 100 && limit > 0 && !SplitsAt(path, limit - 1) { SplitNonempty(path, limit - 1); }
  }

  method FindUstarSplit(path: seq<Byte>) returns (r: Option<(seq<Byte>, seq<Byte>)>)
    ensures r == SplitUstarPath(path, |path|)
  {
    if |path| <= 100 {
      return Some(([], path));
    }
    var separator: nat := |path|;
    while separator > 0
      invariant separator <= |path| && SplitUstarPath(path, |path|) == SplitUstarPath(path, separator)
    {
      separator := separator - 1;
      if path[separator] == SLASH {
        var prefix, name := path[..separator], path[separator + 1..];
        if prefix != [] && |prefix| <= 155 && name != [] && |name| <= 100 {
          return Some((prefix, name));
        }
      }
    }
    return None;
  }

  /** `PaxHeaders/`. */
  const PAX_HEADERS: seq<Byte> := [80, 97, 120, 72, 101, 97, 100, 101, 114, 115, 47]
  /** `PaxEntries/`. */
  const PAX_ENTRIES: seq<Byte> := [80, 97, 120, 69, 110, 116, 114, 105, 101, 115, 47]

  /** The name field of a header: the path's own split, or a numbered stand-in. */
  function HeaderName(path: seq<Byte>, sequence: U64): (r: (seq<Byte>, seq<Byte>))
    ensures |r.0| <= 155 && |r.1| <= 100
  {
    U64HasTwentyDigits(sequence);
    SplitRejoins(path, |path|);
    match SplitUstarPath(path, |path|)
    case Some(split) => split
    case None => ([], PAX_ENTRIES + Decimal(sequence))
  }

  method PrefixedDecimalName(prefix: seq<Byte>, value: U64, buffer: array<Byte>) returns (len: nat)
    requires |prefix| == 11 && buffer.Length == 31
    modifies buffer
    ensures len <= 31 && buffer[..len] == prefix + Decimal(value)
  {
    U64HasTwentyDigits(value);
    var digits := new Byte[20](_ => 0);
    var start := DecimalU64(value, digits);
    len := 11 + (20 - start);
    forall i | 0 <= i < len {
      buffer[i] := if i < 11 then prefix[i] else digits[start + i - 11];
    }
    assert buffer[11..len] == digits[start..];
  }

  // ----------------------------------------------------------------- padding

  /** The low nine bits of the wrapped negation. */
  function PaddingLength(size: U64): (n: nat)
    ensures n < BLOCK_SIZE
  {
    (U64_LIMIT - size) % U64_LIMIT % BLOCK_SIZE
  }

  predicate Aligns(size: nat, padding: nat) { (size + padding) % BLOCK_SIZE == 0 }

  /** That is the least padding to a whole number of blocks. */
  lemma PaddingIsLeast(size: U64)
    ensures size + PaddingLength(size) == Padded(size)
    ensures Aligns(size, PaddingLength(size)) && forall n: nat :: Aligns(size, n) ==> PaddingLength(size) <= n
  {
    assert U64_LIMIT == BLOCK_SIZE * (U64_LIMIT / BLOCK_SIZE);
    var q, r := size / BLOCK_SIZE, size % BLOCK_SIZE;
    if size == 0 {
    } else {
      assert PaddingLength(size) == (U64_LIMIT - size) % BLOCK_SIZE;
      assert PaddingLength(size) == if r == 0 then 0 else BLOCK_SIZE - r;
    }
    forall n: nat | Aligns(size, n) ensures PaddingLength(size) <= n {
      assert (r + n) % BLOCK_SIZE == 0;
    }
  }

  const END_MARKER: seq<Byte> := Zeros(2 * BLOCK_SIZE)

  // ---------------------------------------------------------- one member

  /** The local records of a member, in the order they are written. */
  function MemberRecords(m: PaxMember): seq<RawRecord>
  {
    [RecordFor(PathKey, m.path), RecordFor(SizeKey, Decimal(m.size))]
    + if m.linkPath.Some? then [RecordFor(LinkPathKey, m.linkPath.value)] else []
  }

  function ModeOf(m: PaxMember): U64
  {
    if m.kind == Directory then 0x1ED else if m.kind == SymbolicLink then 0x1FF else if m.executable then 0x1ED else 0x1A4
  }

  function TypeflagOf(m: PaxMember): Byte
  {
    if m.kind == Directory then 53 else if m.kind == SymbolicLink then 50 else 48
  }

  /** What the ordinary header says about the size: the truth if it fits there, else zero. */
  function FallbackSize(m: PaxMember): U64
  {
    if FitsOctal(12, m.size) then m.size else 0
  }

  /** Framing length: extended header, its padded records, ordinary header. */
  function FramedLength(m: PaxMember): nat
  {
    BLOCK_SIZE + Padded(|RecordsBytes(MemberRecords(m))|) + BLOCK_SIZE
  }

  /** The member's ordinary header, under its own split name or a numbered stand-in. */
  ghost predicate MemberLaid(block: Block, sequence: U64, m: PaxMember)
  {
    UstarLayout(block, HeaderName(m.path, sequence).0, HeaderName(m.path, sequence).1,
                ModeOf(m), FallbackSize(m), TypeflagOf(m), if m.linkPath.Some? then m.linkPath.value else [])
  }

  /** `bytes` are the framing of `m`, byte for byte. */
  ghost predicate Framed(sequence: U64, m: PaxMember, bytes: seq<Byte>)
  {
    hide RecordsBytes, MemberRecords, Decimal, HeaderName, UstarLayout;
    var records := RecordsBytes(MemberRecords(m));
    var padded := Padded(|records|);
    U64HasTwentyDigits(sequence);
    && |bytes| == FramedLength(m)
    && UstarLayout(bytes[..BLOCK_SIZE], [], PAX_HEADERS + Decimal(sequence), 0x1A4, |records|, TYPE_PAX_LOCAL, [])
    && bytes[BLOCK_SIZE..BLOCK_SIZE + padded] == NulPadded(records, padded)
    && MemberLaid(bytes[BLOCK_SIZE + padded..], sequence, m)
  }

  /** Appends the member's records after the space kept for the extended header. */
  method AppendMemberRecords(m: PaxMember, buffer: ByteBuffer) returns (r: Option<FramingWriteError>)
    modifies buffer
    ensures r.None? ==> buffer.bytes == old(buffer.bytes) + RecordsBytes(MemberRecords(m))
    ensures r.None? || r == Some(WriteOverflow)
    ensures r.Some? ==> |old(buffer.bytes)| + |RecordsBytes(MemberRecords(m))| >= U64_LIMIT
  {
    OwnKeywordsAcceptable();
    hide RecordBytes, Decimal, RecordFor, RecordsBytes, MemberRecords, AcceptableKeyword;
    RecordsInOrder(m);
    r := AppendPaxRecord(buffer, PathKey, m.path);
    if r.Some? { return; }
    var digits := new Byte[20](_ => 0);
    var start := DecimalU64(m.size, digits);
    r := AppendPaxRecord(buffer, SizeKey, digits[start..]);
    if r.Some? { return; }
    if m.linkPath.Some? {
      r := AppendPaxRecord(buffer, LinkPathKey, m.linkPath.value);
    }
  }

  lemma OwnKeywordsAcceptable()
    ensures AcceptableKeyword(PathKey) && AcceptableKeyword(SizeKey) && AcceptableKeyword(LinkPathKey)
  {
  }

  lemma RecordsInOrder(m: PaxMember)
    ensures var head := RecordBytes(RecordFor(PathKey, m.path)) + RecordBytes(RecordFor(SizeKey, Decimal(m.size)));
            RecordsBytes(MemberRecords(m)) ==
            if m.linkPath.None? then head else head + RecordBytes(RecordFor(LinkPathKey, m.linkPath.value))
  {
    hide RecordBytes, Decimal, RecordFor;
    var records := MemberRecords(m);
    assert records[1..][0] == records[1] && records[1..][1..] == records[2..];
    assert RecordsBytes(records) == RecordBytes(records[0]) + (RecordBytes(records[1]) + RecordsBytes(records[2..]));
    if m.linkPath.Some? {
      assert records[2..][0] == records[2] && records[2..][1..] == [];
      assert RecordsBytes(records[2..]) == RecordBytes(records[2]);
    } else {
      assert records[2..] == [];
    }
  }

  /**
   * Frames one member into `buffer`, replacing what it held. It succeeds exactly for valid members whose
   * records fit the extended header's size field, and the bytes are then the member's framing.
   */
  method FramePaxMemberInto(sequence: U64, m: PaxMember, buffer: ByteBuffer) returns (r: Option<FramingWriteError>)
    modifies buffer
    ensures r.None? <==> ValidateMember(m).None? && FitsOctal(12, |RecordsBytes(MemberRecords(m))|)
    ensures ValidateMember(m).Some? ==> r == ValidateMember(m)
    ensures r.None? ==> Framed(sequence, m, buffer.bytes)
  {
    hide UstarLayout, RecordsBytes, MemberRecords, HeaderName, ValidateMember, FitsOctal;
    r := ValidateMember(m);
    if r.Some? { return; }
    buffer.bytes := Zeros(BLOCK_SIZE);
    r := AppendMemberRecords(m, buffer);
    ghost var records := RecordsBytes(MemberRecords(m));
    FitsOctalIsEncodable(12, |records|);
    EightToTheEleventh();
    if r.Some? { return; }
    var payloadLen := |buffer.bytes| - BLOCK_SIZE;
    var padded := Padded(payloadLen);
    if payloadLen >= U64_LIMIT || padded + 2 * BLOCK_SIZE >= U64_LIMIT {
      return Some(WriteOverflow);
    }
    var collected := buffer.bytes[BLOCK_SIZE..];
    r := FrameHeaders(sequence, m, buffer, collected);
  }

  lemma EightToTheEleventh()
    ensures Pow(8, 11) == 8589934592 && Pow(8, 7) == 2097152
  {
    assert Pow(8, 3) == 512;
    assert Pow(8, 4) == 4096;
    assert Pow(8, 7) == 2097152;
    assert Pow(8, 8) == 16777216;
    assert Pow(8, 9) == 134217728;
    assert Pow(8, 10) == 1073741824;
  }

  /** Both headers around the collected records. */
  method FrameHeaders(sequence: U64, m: PaxMember, buffer: ByteBuffer, records: seq<Byte>) returns (r: Option<FramingWriteError>)
    requires records == RecordsBytes(MemberRecords(m)) && |records| < U64_LIMIT
    modifies buffer
    ensures r.None? <==> FitsOctal(12, |records|)
    ensures r.None? ==> Framed(sequence, m, buffer.bytes)
  {
    hide UstarLayout, RecordsBytes, MemberRecords, FitsOctal, SplitUstarPath;
    EightToTheEleventh();
    U64HasTwentyDigits(sequence);
    var nameBuffer := new Byte[31](_ => 0);
    var nameLen := PrefixedDecimalName(PAX_HEADERS, sequence, nameBuffer);
    var extended := new Byte[BLOCK_SIZE](_ => 0);
    var ordinary := new Byte[BLOCK_SIZE](_ => 0);
    assert extended[..] == Zeros(BLOCK_SIZE) && ordinary[..] == Zeros(BLOCK_SIZE);
    var error := BuildHeaderInto(extended, [], nameBuffer[..nameLen], 0x1A4, |records|, TYPE_PAX_LOCAL, []);
    if error.Some? {
      return Some(ExtendedHeaderTooLarge(|records|));
    }
    WriteMemberHeader(ordinary, sequence, m, nameBuffer, nameLen);
    buffer.bytes := extended[..] + NulPadded(records, Padded(|records|)) + ordinary[..];
    assert buffer.bytes[..BLOCK_SIZE] == extended[..];
    assert buffer.bytes[BLOCK_SIZE + Padded(|records|)..] == ordinary[..];
    return None;
  }

  /** The ordinary header; a path too long for it is replaced by a numbered stand-in. */
  method WriteMemberHeader(block: array<Byte>, sequence: U64, m: PaxMember, nameBuffer: array<Byte>, nameLen: nat)
    requires block.Length == BLOCK_SIZE && block[..] == Zeros(BLOCK_SIZE) && block != nameBuffer
    requires nameBuffer.Length == 31 && 11 <= nameLen <= 31 && nameBuffer[..nameLen] == PAX_HEADERS + Decimal(sequence)
    modifies block, nameBuffer
    ensures MemberLaid(block[..], sequence, m)
  {
    hide UstarLayout, FitsOctal, SplitUstarPath;
    EightToTheEleventh();
    U64HasTwentyDigits(sequence);
    SplitRejoins(m.path, |m.path|);
    var split := FindUstarSplit(m.path);
    var prefix, name;
    if split.Some? {
      prefix, name := split.value.0, split.value.1;
    } else {
      forall i | 0 <= i < 11 {
        nameBuffer[i] := PAX_ENTRIES[i];
      }
      prefix, name := [], nameBuffer[..nameLen];
      assert name == PAX_ENTRIES + Decimal(sequence) by {
        assert nameBuffer[11..nameLen] == old(nameBuffer[..nameLen])[11..];
      }
    }
    FitsOctalIsEncodable(12, 0);
    var _ := BuildHeaderInto(block, prefix, name, ModeOf(m), FallbackSize(m), TypeflagOf(m),
                             if m.linkPath.Some? then m.linkPath.value else []);
  }
}
