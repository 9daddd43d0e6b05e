/** What stands where in a header block of either family, said without a reader, and that reading finds just that. */
module Layout {
  import opened Octets
  import opened Numbers
  import opened Header
  import opened PaxRecords
  import opened Pax
  import opened Framing
  import opened Grammar
  import opened Logical
  import opened Write
  import opened RoundTrip
  import opened Decode

  // -------------------------------------------------------------- the layout

  /** A text in its field: behind it a NUL, or the end of the field. */
  predicate Holds(field: seq<Byte>, text: seq<Byte>)
  {
    text <= field && 0 !in text && (|text| < |field| ==> field[|text|] == 0)
  }

  /** A number in its field: octal, or in the GNU family also base 256. */
  predicate Spells(format: ArchiveFormat, field: seq<Byte>, v: nat)
  {
    SpellsOctal(field, v) || (format == GnuFormat && SpellsBinary(field, v))
  }

  /** Optional numeric metadata: a number, or a field left blank. */
  predicate Stands(format: ArchiveFormat, field: seq<Byte>, v: Option<U64>)
  {
    match v
    case Some(n) => Spells(format, field, n)
    case None => AllNul(field)
  }

  /** The contents of a header. Only the ustar family has a prefix. */
  datatype HeaderText = HeaderText(
    format: ArchiveFormat, typeflag: Byte, size: U64,
    mode: Option<U64>, uid: Option<U64>, gid: Option<U64>, mtime: Option<U64>,
    prefix: seq<Byte>, name: seq<Byte>, linkName: seq<Byte>, uname: seq<Byte>, gname: seq<Byte>)

  /** `ustar`, NUL, `00`; or `ustar`, two spaces, NUL. */
  function Identity(format: ArchiveFormat): seq<Byte>
  {
    [117, 115, 116, 97, 114] + if format == PaxFormat then [0, 48, 48] else [32, 32, 0]
  }

  /** The sum of all bytes, the checksum's own field counting as eight spaces. */
  function SumOf(block: Block): nat
  {
    ByteSum(block[..148]) + 8 * 32 + ByteSum(block[156..])
  }

  /** What makes a block a header: family, checksum, size and type. */
  predicate IsHeader(block: Block, format: ArchiveFormat, typeflag: Byte, size: nat)
  {
    && block[257..265] == Identity(format)
    && SpellsOctal(block[148..156], SumOf(block))
    && Spells(format, block[124..136], size)
    && block[156] == typeflag
  }

  predicate Numbered(block: Block, format: ArchiveFormat, mode: Option<U64>, uid: Option<U64>, gid: Option<U64>, mtime: Option<U64>)
  {
    && Stands(format, block[100..108], mode) && Stands(format, block[108..116], uid) && Stands(format, block[116..124], gid)
    && Stands(format, block[136..148], mtime)
  }

  predicate Named(block: Block, t: HeaderText)
  {
    && Holds(block[0..100], t.name) && Holds(block[157..257], t.linkName)
    && Holds(block[265..297], t.uname) && Holds(block[297..329], t.gname)
    && if t.format == PaxFormat then Holds(block[345..500], t.prefix) else t.prefix == []
  }

  /** A header block that says `t`. */
  predicate Laid(block: Block, t: HeaderText)
  {
    && IsHeader(block, t.format, t.typeflag, t.size)
    && Numbered(block, t.format, t.mode, t.uid, t.gid, t.mtime)
    && Named(block, t)
  }

  // ----------------------------------------------------------- reading it back

  /** A field holds one text only, and that is what trimming finds. */
  lemma HeldIsTrimmed(field: seq<Byte>, text: seq<Byte>)
    ensures Holds(field, text) <==> TrimNul(field) == text
  {
  }

  lemma SpelledIsRead(format: ArchiveFormat, field: seq<Byte>, v: U64)
    ensures ParseNumber(format, field) == Some(v) <==> Spells(format, field, v)
  {
    hide ParseOctal, ParseGnuNumber, SpellsOctal, SpellsBinary;
    OctalReads(field, v);
    GnuNumberReads(field, v);
  }

  /** A number is no blank field. */
  lemma SpelledIsNotBlank(format: ArchiveFormat, field: seq<Byte>, v: nat)
    requires Spells(format, field, v)
    ensures !AllNul(field)
  {
    hide Positional;
    if SpellsOctal(field, v) {
      var k :| 0 < k < |field| && OctalTo(field, k) && v == Positional(field[..k], 8, 48);
      assert field[..k][0] == field[0];
    }
  }

  lemma IdentitiesDiffer(block: Block, format: ArchiveFormat)
    ensures IdentifyFormat(block) == Some(format) <==> block[257..265] == Identity(format)
  {
    assert Identity(PaxFormat) == USTAR_IDENTITY;
    assert Identity(GnuFormat) == GNU_IDENTITY;
    assert USTAR_IDENTITY[5] != GNU_IDENTITY[5];
  }

  /** A block is read as a header exactly where it is one, and as just the one it is. */
  lemma HeaderReads(position: U64, block: Block, format: ArchiveFormat, typeflag: Byte, size: U64)
    ensures ParseHeader(position, block) == Ok(ParsedHeader(format, typeflag, size)) <==> IsHeader(block, format, typeflag, size)
    ensures IsHeader(block, format, typeflag, size) ==> !IsZeroBlock(block)
  {
    hide IdentifyFormat, ParseOctal, ParseNumber, Spells, SpellsOctal, Identity, ByteSum;
    IdentitiesDiffer(block, format);
    ChecksumBound(block);
    OctalReads(block[148..156], Checksum(block));
    SpelledIsRead(format, block[124..136], size);
    if block[257..265] == Identity(format) { NotZero(block, format); }
  }

  lemma NotZero(block: Block, format: ArchiveFormat)
    requires block[257..265] == Identity(format)
    ensures !IsZeroBlock(block)
  {
    assert block[257] == block[257..265][0] == 117;
  }

  /** The four metadata fields are read exactly as they stand; blank ones only where the policy lets them be. */
  lemma NumbersRead(
      position: U64, format: ArchiveFormat, block: Block, allowBlank: bool,
      mode: Option<U64>, uid: Option<U64>, gid: Option<U64>, mtime: Option<U64>)
    ensures NumericFields(position, format, block, allowBlank) == Ok((mode, uid, gid, mtime)) <==>
            && Numbered(block, format, mode, uid, gid, mtime)
            && (allowBlank || (mode.Some? && uid.Some? && gid.Some? && mtime.Some?))
  {
    hide NumericField, Stands;
    NumberRead(position, format, ModeField, block[100..108], allowBlank, mode);
    NumberRead(position, format, UidField, block[108..116], allowBlank, uid);
    NumberRead(position, format, GidField, block[116..124], allowBlank, gid);
    NumberRead(position, format, MtimeField, block[136..148], allowBlank, mtime);
  }

  lemma NumberRead(position: U64, format: ArchiveFormat, name: FieldName, field: seq<Byte>, allowBlank: bool, v: Option<U64>)
    ensures NumericField(position, format, name, field, allowBlank) == Ok(v) <==> Stands(format, field, v) && (allowBlank || v.Some?)
  {
    hide ParseNumber, Spells, AllNul;
    var n := ParseNumber(format, field);
    if n.Some? {
      SpelledIsRead(format, field, n.value);
      SpelledIsNotBlank(format, field, n.value);
    }
    if v.Some? {
      SpelledIsRead(format, field, v.value);
      if Spells(format, field, v.value) { SpelledIsNotBlank(format, field, v.value); }
    }
  }

  /** The path the block alone gives. */
  function PathText(t: HeaderText): seq<Byte>
  {
    if t.prefix == [] then t.name else t.prefix + [SLASH] + t.name
  }

  /** The header a block that says `t` is read as, in a stream where `size` is in effect. */
  function Read(position: U64, block: Block, t: HeaderText, kind: UstarKind, size: U64): MemberHeader
  {
    MemberHeader(position, block, t.format, kind, t.size, size, t.mode, t.uid, t.gid, t.mtime)
  }

  /** What type flags there are for members. */
  predicate IsTypeOf(typeflag: Byte, kind: UstarKind)
  {
    match kind
    case Regular => typeflag in {0, 48}
    case HardLink => typeflag == 49
    case SymbolicLink => typeflag == 50
    case CharacterDevice => typeflag == 51
    case BlockDevice => typeflag == 52
    case Directory => typeflag == 53
    case Fifo => typeflag == 54
    case Contiguous => typeflag == 55
  }

  lemma KindReads(typeflag: Byte, kind: UstarKind)
    ensures KindOf(typeflag) == Some(kind) <==> IsTypeOf(typeflag, kind)
  {
  }

  predicate NothingBlank(t: HeaderText) { t.mode.Some? && t.uid.Some? && t.gid.Some? && t.mtime.Some? }

  /** Only files have a payload, and in the pax family hard links. */
  predicate SizeFits(format: ArchiveFormat, kind: UstarKind, size: nat)
  {
    size == 0 || kind == Regular || kind == Contiguous || (format == PaxFormat && kind == HardLink)
  }

  /** What makes `h` the header of a block with this type flag and size: every field as it stands, none out of place. */
  predicate TakenAs(block: Block, typeflag: Byte, size: U64, allowBlank: bool, h: MemberHeader)
  {
    && h.block == block && h.declaredSize == size && IsTypeOf(typeflag, h.kind)
    && SizeFits(h.format, h.kind, size) && SizeFits(h.format, h.kind, h.effectiveSize)
    && Numbered(block, h.format, h.mode, h.uid, h.gid, h.mtime)
    && (allowBlank || (h.mode.Some? && h.uid.Some? && h.gid.Some? && h.mtime.Some?))
  }

  /** A ustar header is taken exactly as it stands, with the size in effect; its owner names must be terminated. */
  lemma UstarTaken(position: U64, block: Block, typeflag: Byte, size: U64, sizeRecord: Option<PaxRecord>, allowBlank: bool, h: MemberHeader)
    ensures UstarHeader(position, block, ParsedHeader(PaxFormat, typeflag, size), sizeRecord, allowBlank) == Ok(h) <==>
            && TakenAs(block, typeflag, size, allowBlank, h) && h.position == position && h.format == PaxFormat
            && EffectiveSize(position, size, sizeRecord) == Ok(h.effectiveSize)
            && 0 in block[265..297] && 0 in block[297..329]
  {
    hide NumericFields, Numbered, KindOf, EffectiveSize, IsTypeOf;
    KindReads(typeflag, h.kind);
    NumbersRead(position, PaxFormat, block, allowBlank, h.mode, h.uid, h.gid, h.mtime);
  }

  /** A GNU header is taken exactly as it stands; behind a long link name it must be a link's. */
  lemma GnuTaken(position: U64, block: Block, typeflag: Byte, size: U64, requireLink: bool, allowBlank: bool, h: MemberHeader)
    ensures GnuHeader(position, block, ParsedHeader(GnuFormat, typeflag, size), requireLink, allowBlank) == Ok(h) <==>
            && TakenAs(block, typeflag, size, allowBlank, h) && h.position == position && h.format == GnuFormat
            && h.effectiveSize == size && (requireLink ==> h.kind == HardLink || h.kind == SymbolicLink)
  {
    hide NumericFields, Numbered, KindOf, IsTypeOf;
    KindReads(typeflag, h.kind);
    NumbersRead(position, GnuFormat, block, allowBlank, h.mode, h.uid, h.gid, h.mtime);
  }

  /** A ustar block that says `t` is taken as that. */
  lemma UstarReads(
      position: U64, block: Block, t: HeaderText, kind: UstarKind, sizeRecord: Option<PaxRecord>, size: U64, allowBlank: bool)
    requires Laid(block, t) && t.format == PaxFormat && IsTypeOf(t.typeflag, kind) && (allowBlank || NothingBlank(t))
    requires |t.uname| < 32 && |t.gname| < 32 && EffectiveSize(position, t.size, sizeRecord) == Ok(size)
    requires SizeFits(PaxFormat, kind, t.size) && SizeFits(PaxFormat, kind, size)
    ensures UstarHeader(position, block, ParsedHeader(PaxFormat, t.typeflag, t.size), sizeRecord, allowBlank)
            == Ok(Read(position, block, t, kind, size))
  {
    hide Numbered, UstarHeader, IsHeader, EffectiveSize, IsTypeOf, SizeFits;
    assert block[265..297][|t.uname|] == 0 && block[297..329][|t.gname|] == 0;
    UstarTaken(position, block, t.typeflag, t.size, sizeRecord, allowBlank, Read(position, block, t, kind, size));
  }

  /** A GNU block that says `t` is taken as that. */
  lemma GnuReads(position: U64, block: Block, t: HeaderText, kind: UstarKind, requireLink: bool, allowBlank: bool)
    requires Laid(block, t) && t.format == GnuFormat && IsTypeOf(t.typeflag, kind) && (allowBlank || NothingBlank(t))
    requires SizeFits(GnuFormat, kind, t.size) && (requireLink ==> kind == HardLink || kind == SymbolicLink)
    ensures GnuHeader(position, block, ParsedHeader(GnuFormat, t.typeflag, t.size), requireLink, allowBlank)
            == Ok(Read(position, block, t, kind, t.size))
  {
    hide Numbered, GnuHeader, IsHeader, IsTypeOf, SizeFits, Named;
    GnuTaken(position, block, t.typeflag, t.size, requireLink, allowBlank, Read(position, block, t, kind, t.size));
  }

  /** Every part of a member header comes from its own field. */
  lemma LogicalReads(position: U64, block: Block, t: HeaderText, kind: UstarKind, size: U64)
    requires Named(block, t)
    ensures LogicalHeaderOf(Read(position, block, t, kind, size)) ==
            LogicalHeader(position, t.format, kind, t.size, size, t.mode, t.uid, t.gid, t.mtime, t.uname, t.gname, PathText(t), t.linkName)
  {
    hide Holds, TrimNul;
    HeldIsTrimmed(block[0..100], t.name);
    HeldIsTrimmed(block[157..257], t.linkName);
    HeldIsTrimmed(block[265..297], t.uname);
    HeldIsTrimmed(block[297..329], t.gname);
    HeldIsTrimmed(block[345..500], t.prefix);
    assert block[..100] == block[0..100];
  }

  // ------------------------------------------------- what the writer lays down

  /** The permission digits of a written member: directories and executable files 755, links 777, other files 644. */
  predicate WrittenMode(m: PaxMember, mode: nat)
  {
    var owner, group, others := mode / 64, mode / 8 % 8, mode % 8;
    match m.kind
    case SymbolicLink => owner == 7 && group == 7 && others == 7
    case Directory => owner == 7 && group == 5 && others == 5
    case _ => if m.executable then owner == 7 && group == 5 && others == 5 else owner == 6 && group == 4 && others == 4
  }

  /** The size as far as the field can say it. */
  predicate WrittenSize(m: PaxMember, size: nat)
  {
    if m.size < 8589934592 then size == m.size else size == 0
  }

  /** The member's own path where prefix and name have room for it, else a numbered stand-in. */
  predicate WrittenName(m: PaxMember, sequence: U64, prefix: seq<Byte>, name: seq<Byte>)
  {
    if SplitUstarPath(m.path, |m.path|).Some? then UstarSplit(m.path, prefix, name)
    else prefix == [] && name == PAX_ENTRIES + Decimal(sequence)
  }

  /** What a written member's ordinary header says to a reader that knows nothing of its records. */
  predicate WrittenText(m: PaxMember, sequence: U64, t: HeaderText)
  {
    && t.format == PaxFormat && IsTypeOf(t.typeflag, m.kind) && WrittenSize(m, t.size)
    && t.mode.Some? && WrittenMode(m, t.mode.value) && t.uid == Some(0) && t.gid == Some(0) && t.mtime == Some(0)
    && WrittenName(m, sequence, t.prefix, t.name)
    && t.linkName == (if m.linkPath.Some? && |m.linkPath.value| <= 100 then m.linkPath.value else [])
    && t.uname == [] && t.gname == []
  }

  lemma PaddedHolds(text: seq<Byte>, width: nat)
    requires |text| <= width && 0 !in text
    ensures Holds(NulPadded(text, width), text)
  {
  }

  /** A block in the writer's layout says what was written into it. */
  lemma LayoutIsLaid(block: Block, prefix: seq<Byte>, name: seq<Byte>, mode: U64, size: U64, typeflag: Byte, linkPath: seq<Byte>)
    requires |name| <= 100 && |prefix| <= 155 && UstarLayout(block, prefix, name, mode, size, typeflag, linkPath)
    requires 0 !in name && 0 !in prefix && 0 !in linkPath && mode < Pow(8, 7) && size < Pow(8, 11)
    ensures Laid(block, HeaderText(PaxFormat, typeflag, size, Some(mode), Some(0), Some(0), Some(0), prefix, name,
                                   if |linkPath| <= 100 then linkPath else [], [], []))
  {
    hide UstarLayout, IsHeader, Numbered, Named;
    LayoutIsHeader(block, prefix, name, mode, size, typeflag, linkPath);
    LayoutNumbered(block, prefix, name, mode, size, typeflag, linkPath);
    LayoutNamed(block, prefix, name, mode, size, typeflag, linkPath);
  }

  lemma LayoutIsHeader(block: Block, prefix: seq<Byte>, name: seq<Byte>, mode: U64, size: U64, typeflag: Byte, linkPath: seq<Byte>)
    requires |name| <= 100 && |prefix| <= 155 && UstarLayout(block, prefix, name, mode, size, typeflag, linkPath)
    requires size < Pow(8, 11)
    ensures IsHeader(block, PaxFormat, typeflag, size)
  {
    hide UstarLayout, IsHeader, ParseHeader;
    LayoutParses(block, prefix, name, mode, size, typeflag, linkPath, 0);
    HeaderReads(0, block, PaxFormat, typeflag, size);
  }

  lemma LayoutNumbered(block: Block, prefix: seq<Byte>, name: seq<Byte>, mode: U64, size: U64, typeflag: Byte, linkPath: seq<Byte>)
    requires |name| <= 100 && |prefix| <= 155 && UstarLayout(block, prefix, name, mode, size, typeflag, linkPath)
    requires mode < Pow(8, 7)
    ensures Numbered(block, PaxFormat, Some(mode), Some(0), Some(0), Some(0))
  {
    hide UstarLayout, Numbered, NumericFields;
    LayoutNumbers(block, prefix, name, mode, size, typeflag, linkPath, 0, true);
    NumbersRead(0, PaxFormat, block, true, Some(mode), Some(0), Some(0), Some(0));
  }

  lemma LayoutNamed(block: Block, prefix: seq<Byte>, name: seq<Byte>, mode: U64, size: U64, typeflag: Byte, linkPath: seq<Byte>)
    requires |name| <= 100 && |prefix| <= 155 && UstarLayout(block, prefix, name, mode, size, typeflag, linkPath)
    requires 0 !in name && 0 !in prefix && 0 !in linkPath
    ensures Named(block, HeaderText(PaxFormat, typeflag, size, Some(mode), Some(0), Some(0), Some(0), prefix, name,
                                    if |linkPath| <= 100 then linkPath else [], [], []))
  {
    hide OctalField, NulPadded, ChecksumField, Checksum, Holds;
    PaddedHolds(name, 100);
    PaddedHolds(prefix, 155);
    PaddedHolds(if |linkPath| <= 100 then linkPath else [], 100);
    assert block[0..100] == block[..100];
    ZerosHold(block);
  }

  lemma ZerosHold(block: Block)
    requires block[265..329] == Zeros(64)
    ensures Holds(block[265..297], []) && Holds(block[297..329], [])
  {
    assert block[265..297][0] == block[265..329][0];
    assert block[297..329][0] == block[265..329][32];
  }

  lemma ModesWritten(m: PaxMember)
    ensures WrittenMode(m, ModeOf(m)) && ModeOf(m) < 512
  {
  }

  lemma SizeWritten(m: PaxMember)
    ensures WrittenSize(m, FallbackSize(m)) && FallbackSize(m) < Pow(8, 11)
  {
    hide FitsOctal;
    FitsOctalIsEncodable(12, m.size);
    EightToTheEleventh();
  }

  lemma NameWritten(m: PaxMember, sequence: U64)
    requires 0 !in m.path
    ensures var (prefix, name) := HeaderName(m.path, sequence);
            WrittenName(m, sequence, prefix, name) && 0 !in prefix && 0 !in name
  {
    hide SplitUstarPath, Decimal;
    SplitRejoins(m.path, |m.path|);
    var (prefix, name) := HeaderName(m.path, sequence);
    if SplitUstarPath(m.path, |m.path|).Some? {
      assert forall i :: 0 <= i < |prefix| ==> prefix[i] == m.path[i];
      assert forall i :: 0 <= i < |name| ==> name[i] == m.path[|m.path| - |name| + i];
    }
  }

  /**
   * The ordinary header of a written member stands on its own: a reader that skips the extended header finds the
   * member's type, mode, and, as far as the fields have room, its path, size and link text.
   */
  lemma WrittenHeaderSays(block: Block, sequence: U64, m: PaxMember) returns (t: HeaderText)
    requires ValidateMember(m).None? && MemberLaid(block, sequence, m)
    ensures WrittenText(m, sequence, t) && Laid(block, t)
  {
    hide UstarLayout, ValidateMember, HeaderName, ModeOf, FallbackSize, WrittenMode, WrittenSize, WrittenName, Laid;
    ValidMembers(m);
    ModesWritten(m);
    SizeWritten(m);
    NameWritten(m, sequence);
    EightToTheEleventh();
    var (prefix, name) := HeaderName(m.path, sequence);
    var link := if m.linkPath.Some? then m.linkPath.value else [];
    LayoutIsLaid(block, prefix, name, ModeOf(m), FallbackSize(m), TypeflagOf(m), link);
    t := HeaderText(PaxFormat, TypeflagOf(m), FallbackSize(m), Some(ModeOf(m)), Some(0), Some(0), Some(0), prefix, name,
                    if |link| <= 100 then link else [], [], []);
  }
}
