/** The 512-byte ustar/GNU header block: field layout, checksum, and the header writer. */
module Header {
  import opened Octets
  import opened Numbers

  const NAME_END := 100
  const MODE_END := 108
  const UID_END := 116
  const GID_END := 124
  const SIZE_END := 136
  const MTIME_END := 148
  const CHECKSUM_END := 156
  const TYPEFLAG_OFFSET := 156
  const LINK_NAME_END := 257
  const IDENTITY_END := 265
  const UNAME_END := 297
  const GNAME_END := 329
  const DEVMAJOR_END := 337
  const DEVMINOR_END := 345
  const PREFIX_END := 500

  /** `ustar`, NUL, `00`. */
  const USTAR_IDENTITY: seq<Byte> := [117, 115, 116, 97, 114, 0, 48, 48]
  /** `ustar`, two spaces, NUL. */
  const GNU_IDENTITY: seq<Byte> := [117, 115, 116, 97, 114, 32, 32, 0]

  const MAX_CHECKSUM := 504 * 255 + 8 * 32

  /** The byte sum of the block with its own checksum field counted as spaces. */
  function Checksum(block: Block): (sum: nat)
    ensures sum == ByteSum(block[..MTIME_END]) + 8 * SPACE + ByteSum(block[CHECKSUM_END..])
  {
    SumSplit(block);
    ByteSum(block) - ByteSum(block[MTIME_END..CHECKSUM_END]) + 8 * SPACE
  }

  lemma SumSplit(block: Block)
    ensures ByteSum(block) ==
            ByteSum(block[..MTIME_END]) + ByteSum(block[MTIME_END..CHECKSUM_END]) + ByteSum(block[CHECKSUM_END..])
  {
    var front, field, back := block[..MTIME_END], block[MTIME_END..CHECKSUM_END], block[CHECKSUM_END..];
    assert block == (front + field) + back;
    ByteSumConcat(front + field, back);
    ByteSumConcat(front, field);
  }

  /** Whatever is stored in the checksum field does not change the checksum. */
  lemma ChecksumIgnoresItsField(block: Block, field: seq<Byte>)
    requires |field| == 8
    ensures Checksum(Splice(block, MTIME_END, field)) == Checksum(block)
  {
    var changed := Splice(block, MTIME_END, field);
    SpliceElsewhere(block, MTIME_END, field, 0, MTIME_END);
    SpliceElsewhere(block, MTIME_END, field, CHECKSUM_END, 512);
    assert changed[0..MTIME_END] == changed[..MTIME_END] && block[0..MTIME_END] == block[..MTIME_END];
    assert changed[CHECKSUM_END..512] == changed[CHECKSUM_END..] && block[CHECKSUM_END..512] == block[CHECKSUM_END..];
  }

  lemma ChecksumBound(block: Block)
    ensures 0 <= Checksum(block) <= MAX_CHECKSUM < Pow(8, 6)
  {
    ByteSumBound(block[..MTIME_END]);
    ByteSumBound(block[CHECKSUM_END..]);
    assert Pow(8, 6) == 262144 by {
      assert Pow(8, 2) == 64 && Pow(8, 3) == 512 && Pow(8, 4) == 4096 && Pow(8, 5) == 32768;
    }
  }

  /** The field the writer stores: six octal digits, NUL, space. */
  function ChecksumField(sum: nat): seq<Byte>
  {
    OctalDigits(sum, 6) + [0, SPACE]
  }

  /** A stored checksum is read back as the checksum of the finished block. */
  lemma ChecksumSurvives(block: Block, sum: nat)
    requires block[MTIME_END..CHECKSUM_END] == ChecksumField(sum)
    requires sum == Checksum(block)
    ensures ParseOctal(block[MTIME_END..CHECKSUM_END]) == Some(Checksum(block))
  {
    ChecksumBound(block);
    OctalRoundTrip(sum, 6, [0, SPACE]);
  }

  /** A number in a header field of `width` bytes: zero-filled octal and one NUL. */
  function OctalField(value: nat, width: nat): seq<Byte>
    requires width > 1
  {
    OctalDigits(value, width - 1) + [0]
  }

  /** A ustar header block, field by field; all 512 bytes are determined. */
  ghost predicate UstarLayout(
      block: Block, prefix: seq<Byte>, name: seq<Byte>, mode: nat, size: nat, typeflag: Byte, linkPath: seq<Byte>)
    requires |name| <= 100 && |prefix| <= 155
  {
    && block[..NAME_END] == NulPadded(name, 100)
    && block[NAME_END..MODE_END] == OctalField(mode, 8)
    && block[MODE_END..UID_END] == OctalField(0, 8)
    && block[UID_END..GID_END] == OctalField(0, 8)
    && block[GID_END..SIZE_END] == OctalField(size, 12)
    && block[SIZE_END..MTIME_END] == OctalField(0, 12)
    && block[MTIME_END..CHECKSUM_END] == ChecksumField(Checksum(block))
    && block[TYPEFLAG_OFFSET] == typeflag
    && block[157..LINK_NAME_END] == NulPadded(if |linkPath| <= 100 then linkPath else [], 100)
    && block[LINK_NAME_END..IDENTITY_END] == USTAR_IDENTITY
    && block[IDENTITY_END..GNAME_END] == Zeros(64)
    && block[GNAME_END..DEVMAJOR_END] == OctalField(0, 8)
    && block[DEVMAJOR_END..DEVMINOR_END] == OctalField(0, 8)
    && block[DEVMINOR_END..PREFIX_END] == NulPadded(prefix, 155)
    && block[PREFIX_END..] == Zeros(12)
  }

  // ------------------------------------------------------- the header writer

  /** Bytes placed at an offset. */
  datatype Field = Field(at: nat, bytes: seq<Byte>)

  ghost predicate InBlock(fields: seq<Field>)
  {
    forall i :: 0 <= i < |fields| ==> fields[i].at + |fields[i].bytes| <= BLOCK_SIZE
  }

  /** A zero block after all `fields` have been written in order. */
  ghost function Written(fields: seq<Field>): Block
    requires InBlock(fields)
  {
    if fields == [] then Zeros(BLOCK_SIZE)
    else
      var last := fields[|fields| - 1];
      Splice(Written(fields[..|fields| - 1]), last.at, last.bytes)
  }

  predicate Misses(field: Field, lo: nat, hi: nat)
  {
    hi <= field.at || field.at + |field.bytes| <= lo
  }

  /** A window no field touches is still zero. */
  lemma {:induction false} UntouchedWindow(fields: seq<Field>, lo: nat, hi: nat)
    requires InBlock(fields) && lo <= hi <= BLOCK_SIZE
    requires forall i :: 0 <= i < |fields| ==> Misses(fields[i], lo, hi)
    ensures Written(fields)[lo..hi] == Zeros(hi - lo)
  {
    if fields != [] {
      var rest, last := fields[..|fields| - 1], fields[|fields| - 1];
      UntouchedWindow(rest, lo, hi);
      SpliceElsewhere(Written(rest), last.at, last.bytes, lo, hi);
    }
  }

  /** A field written over zeros reads as itself, zero-filled. */
  lemma SplicedWindow(before: Block, at: nat, bytes: seq<Byte>, width: nat)
    requires |bytes| <= width && at + width <= BLOCK_SIZE && before[at..at + width] == Zeros(width)
    ensures Splice(before, at, bytes)[at..at + width] == NulPadded(bytes, width)
  {
    var after := Splice(before, at, bytes);
    var mid, hi := at + |bytes|, at + width;
    SpliceElsewhere(before, at, bytes, mid, hi);
    assert before[mid..hi] == before[at..hi][|bytes|..];
    assert after[at..hi] == after[at..mid] + after[mid..hi];
  }

  /** A window inside one field, missed by the later ones, holds that field's bytes, zero-filled behind them. */
  lemma {:induction false} FieldWindow(fields: seq<Field>, k: nat, width: nat)
    requires InBlock(fields) && k < |fields|
    requires var f := fields[k]; |f.bytes| <= width && f.at + width <= BLOCK_SIZE
    requires forall i :: 0 <= i < |fields| && i != k ==> Misses(fields[i], fields[k].at, fields[k].at + width)
    ensures Written(fields)[fields[k].at..fields[k].at + width] == NulPadded(fields[k].bytes, width)
  {
    var rest, last := fields[..|fields| - 1], fields[|fields| - 1];
    var lo, hi := fields[k].at, fields[k].at + width;
    if k == |fields| - 1 {
      UntouchedWindow(rest, lo, hi);
      SplicedWindow(Written(rest), lo, last.bytes, width);
    } else {
      FieldWindow(rest, k, width);
      SpliceElsewhere(Written(rest), last.at, last.bytes, lo, hi);
    }
  }

  method CopyInto(block: array<Byte>, at: nat, bytes: seq<Byte>)
    requires at + |bytes| <= block.Length
    modifies block
    ensures block[..] == Splice(old(block[..]), at, bytes)
  {
    forall i | 0 <= i < |bytes| {
      block[at + i] := bytes[i];
    }
  }

  ghost function TextFields(prefix: seq<Byte>, name: seq<Byte>, linkPath: seq<Byte>): seq<Field>
  {
    [Field(0, name), Field(DEVMINOR_END, prefix), Field(157, if |linkPath| <= 100 then linkPath else [])]
  }

  ghost function NumberFields(mode: nat, size: nat): seq<Field>
  {
    [Field(NAME_END, OctalField(mode, 8)), Field(MODE_END, OctalField(0, 8)), Field(UID_END, OctalField(0, 8)),
     Field(GID_END, OctalField(size, 12)), Field(SIZE_END, OctalField(0, 12)),
     Field(GNAME_END, OctalField(0, 8)), Field(DEVMAJOR_END, OctalField(0, 8))]
  }

  ghost function TrailerFields(typeflag: Byte): seq<Field>
  {
    [Field(TYPEFLAG_OFFSET, [typeflag]), Field(LINK_NAME_END, USTAR_IDENTITY)]
  }

  ghost function HeaderFields(
      prefix: seq<Byte>, name: seq<Byte>, mode: nat, size: nat, typeflag: Byte, linkPath: seq<Byte>): (fs: seq<Field>)
    requires |name| <= 100 && |prefix| <= 155
    ensures InBlock(fs) && |fs| == 12
  {
    TextFields(prefix, name, linkPath) + NumberFields(mode, size) + TrailerFields(typeflag)
  }

  lemma WrittenMore(fields: seq<Field>, f: Field)
    requires InBlock(fields) && f.at + |f.bytes| <= BLOCK_SIZE
    ensures InBlock(fields + [f])
    ensures Written(fields + [f]) == Splice(Written(fields), f.at, f.bytes)
  {
    assert (fields + [f])[..|fields|] == fields;
  }

  /** The header with every field but the checksum written, then the checksum over that. */
  ghost function FinishedHeader(
      prefix: seq<Byte>, name: seq<Byte>, mode: nat, size: nat, typeflag: Byte, linkPath: seq<Byte>): Block
    requires |name| <= 100 && |prefix| <= 155
  {
    var block := Written(HeaderFields(prefix, name, mode, size, typeflag, linkPath));
    Splice(block, MTIME_END, ChecksumField(Checksum(block)))
  }

  /** The window of each write, in the finished header. */
  lemma HeaderWindow(
      prefix: seq<Byte>, name: seq<Byte>, mode: nat, size: nat, typeflag: Byte, linkPath: seq<Byte>, k: nat, width: nat)
    requires |name| <= 100 && |prefix| <= 155 && k < 12
    requires width == [100, 155, 100, 8, 8, 8, 12, 12, 8, 8, 1, 8][k]
    ensures var fs := HeaderFields(prefix, name, mode, size, typeflag, linkPath);
            && |fs[k].bytes| <= width && fs[k].at + width <= BLOCK_SIZE
            && FinishedHeader(prefix, name, mode, size, typeflag, linkPath)[fs[k].at..fs[k].at + width]
               == NulPadded(fs[k].bytes, width)
  {
    hide Written, Checksum, OctalDigits, ByteSum;
    var fs := HeaderFields(prefix, name, mode, size, typeflag, linkPath);
    FieldWindow(fs, k, width);
    SpliceElsewhere(Written(fs), MTIME_END, ChecksumField(Checksum(Written(fs))), fs[k].at, fs[k].at + width);
  }

  /** The two windows no write touches. */
  lemma HeaderGap(
      prefix: seq<Byte>, name: seq<Byte>, mode: nat, size: nat, typeflag: Byte, linkPath: seq<Byte>, lo: nat, hi: nat)
    requires |name| <= 100 && |prefix| <= 155
    requires (lo, hi) == (IDENTITY_END, GNAME_END) || (lo, hi) == (PREFIX_END, 512)
    ensures FinishedHeader(prefix, name, mode, size, typeflag, linkPath)[lo..hi] == Zeros(hi - lo)
  {
    var fs := HeaderFields(prefix, name, mode, size, typeflag, linkPath);
    UntouchedWindow(fs, lo, hi);
    SpliceElsewhere(Written(fs), MTIME_END, ChecksumField(Checksum(Written(fs))), lo, hi);
  }

  /** Every recorded write is visible in `block`, NUL-filled to the width of its field. */
  ghost predicate Shows(block: Block, fs: seq<Field>, widths: seq<nat>)
    requires |fs| == |widths|
  {
    forall k :: 0 <= k < |fs| ==> ShowsField(block, fs[k], widths[k])
  }

  ghost predicate ShowsField(block: Block, f: Field, width: nat)
  {
    && |f.bytes| <= width && f.at + width <= BLOCK_SIZE
    && block[f.at..f.at + width] == NulPadded(f.bytes, width)
  }

  const WIDTHS: seq<nat> := [100, 155, 100, 8, 8, 8, 12, 12, 8, 8, 1, 8]

  lemma FullField(f: seq<Byte>)
    ensures NulPadded(f, |f|) == f
  {
  }

  lemma NumberShown(block: Block, fs: seq<Field>, k: nat, at: nat, value: nat, width: nat)
    requires |fs| == 12 && Shows(block, fs, WIDTHS)
    requires k < 12 && 1 < width == WIDTHS[k] && fs[k] == Field(at, OctalField(value, width))
    ensures at + width <= BLOCK_SIZE && block[at..at + width] == OctalField(value, width)
  {
    assert ShowsField(block, fs[k], WIDTHS[k]);
    FullField(OctalField(value, width));
  }

  lemma NumbersShown(block: Block, fs: seq<Field>, mode: nat, size: nat)
    requires |fs| == 12 && Shows(block, fs, WIDTHS) && fs[3..10] == NumberFields(mode, size)
    ensures block[NAME_END..MODE_END] == OctalField(mode, 8)
    ensures block[MODE_END..UID_END] == OctalField(0, 8)
    ensures block[UID_END..GID_END] == OctalField(0, 8)
    ensures block[GID_END..SIZE_END] == OctalField(size, 12)
    ensures block[SIZE_END..MTIME_END] == OctalField(0, 12)
    ensures block[GNAME_END..DEVMAJOR_END] == OctalField(0, 8)
    ensures block[DEVMAJOR_END..DEVMINOR_END] == OctalField(0, 8)
  {
    hide OctalField, Shows;
    assert forall k :: 3 <= k < 10 ==> fs[k] == fs[3..10][k - 3];
    NumberShown(block, fs, 3, NAME_END, mode, 8);
    NumberShown(block, fs, 4, MODE_END, 0, 8);
    NumberShown(block, fs, 5, UID_END, 0, 8);
    NumberShown(block, fs, 6, GID_END, size, 12);
    NumberShown(block, fs, 7, SIZE_END, 0, 12);
    NumberShown(block, fs, 8, GNAME_END, 0, 8);
    NumberShown(block, fs, 9, DEVMAJOR_END, 0, 8);
  }

  lemma TextShown(block: Block, fs: seq<Field>, prefix: seq<Byte>, name: seq<Byte>, typeflag: Byte, linkPath: seq<Byte>)
    requires |name| <= 100 && |prefix| <= 155
    requires |fs| == 12 && Shows(block, fs, WIDTHS)
    requires fs[..3] == TextFields(prefix, name, linkPath) && fs[10..] == TrailerFields(typeflag)
    ensures block[..NAME_END] == NulPadded(name, 100)
    ensures block[TYPEFLAG_OFFSET] == typeflag
    ensures block[157..LINK_NAME_END] == NulPadded(if |linkPath| <= 100 then linkPath else [], 100)
    ensures block[LINK_NAME_END..IDENTITY_END] == USTAR_IDENTITY
    ensures block[DEVMINOR_END..PREFIX_END] == NulPadded(prefix, 155)
  {
    assert fs[0] == fs[..3][0] && fs[1] == fs[..3][1] && fs[2] == fs[..3][2];
    assert ShowsField(block, fs[0], 100) && ShowsField(block, fs[1], 155) && ShowsField(block, fs[2], 100);
    assert fs[10] == fs[10..][0] && fs[11] == fs[10..][1];
    assert ShowsField(block, fs[10], 1) && ShowsField(block, fs[11], 8);
    FullField([typeflag]);
    FullField(USTAR_IDENTITY);
    assert block[0..NAME_END] == block[..NAME_END];
    assert block[TYPEFLAG_OFFSET] == block[TYPEFLAG_OFFSET..157][0];
  }

  /** Writing the fields in the writer's order produces the ustar layout. */
  lemma FinishedHeaderLayout(
      prefix: seq<Byte>, name: seq<Byte>, mode: nat, size: nat, typeflag: Byte, linkPath: seq<Byte>)
    requires |name| <= 100 && |prefix| <= 155
    ensures UstarLayout(FinishedHeader(prefix, name, mode, size, typeflag, linkPath),
                        prefix, name, mode, size, typeflag, linkPath)
  {
    var block := FinishedHeader(prefix, name, mode, size, typeflag, linkPath);
    var fs := HeaderFields(prefix, name, mode, size, typeflag, linkPath);
    assert Shows(block, fs, WIDTHS) && fs[..3] == TextFields(prefix, name, linkPath)
           && fs[3..10] == NumberFields(mode, size) && fs[10..] == TrailerFields(typeflag) by {
      forall k | 0 <= k < |fs| ensures ShowsField(block, fs[k], WIDTHS[k]) {
        HeaderWindow(prefix, name, mode, size, typeflag, linkPath, k, WIDTHS[k]);
      }
    }
    HeaderGap(prefix, name, mode, size, typeflag, linkPath, IDENTITY_END, GNAME_END);
    HeaderGap(prefix, name, mode, size, typeflag, linkPath, PREFIX_END, 512);
    NumbersShown(block, fs, mode, size);
    TextShown(block, fs, prefix, name, typeflag, linkPath);
    ChecksumShown(prefix, name, mode, size, typeflag, linkPath);
  }

  lemma ChecksumShown(
      prefix: seq<Byte>, name: seq<Byte>, mode: nat, size: nat, typeflag: Byte, linkPath: seq<Byte>)
    requires |name| <= 100 && |prefix| <= 155
    ensures var block := FinishedHeader(prefix, name, mode, size, typeflag, linkPath);
            block[MTIME_END..CHECKSUM_END] == ChecksumField(Checksum(block))
  {
    var block := Written(HeaderFields(prefix, name, mode, size, typeflag, linkPath));
    ChecksumIgnoresItsField(block, ChecksumField(Checksum(block)));
  }

  datatype HeaderWriteError = SizeTooLarge

  /**
   * Fills a zeroed block. The only field that can be too small is the size field;
   * a link path longer than its field is left out (the extended header carries it).
   */
  method BuildHeaderInto(
      block: array<Byte>, prefix: seq<Byte>, name: seq<Byte>, mode: U64, size: U64, typeflag: Byte, linkPath: seq<Byte>)
    returns (r: Option<HeaderWriteError>)
    requires block.Length == BLOCK_SIZE && block[..] == Zeros(BLOCK_SIZE)
    requires |name| <= 100 && |prefix| <= 155
    requires mode < Pow(8, 7)
    modifies block
    ensures r.None? <==> FitsOctal(12, size)
    ensures r.None? ==> UstarLayout(block[..], prefix, name, mode, size, typeflag, linkPath)
  {
    hide UstarLayout, Written, TextFields, NumberFields, TrailerFields, FitsOctal, Checksum, ChecksumField;
    WriteTextFields(block, prefix, name, linkPath);
    ghost var text := TextFields(prefix, name, linkPath);
    var ok := WriteNumberFields(block, text, mode, size);
    FitsOctalIsEncodable(12, size);
    if !ok {
      return Some(SizeTooLarge);
    }
    WriteTrailer(block, text + NumberFields(mode, size), typeflag);
    FinishedHeaderLayout(prefix, name, mode, size, typeflag, linkPath);
    return None;
  }

  method WriteTrailer(block: array<Byte>, ghost fields: seq<Field>, typeflag: Byte)
    requires block.Length == BLOCK_SIZE && InBlock(fields) && block[..] == Written(fields)
    modifies block
    ensures InBlock(fields + TrailerFields(typeflag))
    ensures var unsigned := Written(fields + TrailerFields(typeflag));
            block[..] == Splice(unsigned, MTIME_END, ChecksumField(Checksum(unsigned)))
  {
    ghost var f0, f1 := Field(TYPEFLAG_OFFSET, [typeflag]), Field(LINK_NAME_END, USTAR_IDENTITY);
    WrittenMore(fields, f0);
    WrittenMore(fields + [f0], f1);
    assert fields + [f0] + [f1] == fields + TrailerFields(typeflag);
    CopyInto(block, TYPEFLAG_OFFSET, [typeflag]);
    CopyInto(block, LINK_NAME_END, USTAR_IDENTITY);
    EncodeChecksum(block);
  }

  /** Six octal digits always suffice for a checksum. */
  method EncodeChecksum(block: array<Byte>)
    requires block.Length == BLOCK_SIZE
    modifies block
    ensures block[..] == Splice(old(block[..]), MTIME_END, ChecksumField(Checksum(old(block[..]))))
  {
    var value := Checksum(block[..]);
    ChecksumBound(block[..]);
    var _ := EncodeOctal(block, MTIME_END, CHECKSUM_END, value, [0, SPACE]);
  }

  method WriteTextFields(block: array<Byte>, prefix: seq<Byte>, name: seq<Byte>, linkPath: seq<Byte>)
    requires block.Length == BLOCK_SIZE && block[..] == Zeros(BLOCK_SIZE)
    requires |name| <= 100 && |prefix| <= 155
    modifies block
    ensures InBlock(TextFields(prefix, name, linkPath)) && block[..] == Written(TextFields(prefix, name, linkPath))
  {
    hide Zeros;
    ghost var f0, f1 := Field(0, name), Field(DEVMINOR_END, prefix);
    WrittenMore([], f0);
    WrittenMore([f0], f1);
    assert [] + [f0] == [f0] && [f0] + [f1] == [f0, f1];
    CopyInto(block, 0, name);
    CopyInto(block, DEVMINOR_END, prefix);
    assert block[..] == Written([f0, f1]);
    WriteLinkField(block, [f0, f1], linkPath);
    assert [f0, f1] + [TextFields(prefix, name, linkPath)[2]] == TextFields(prefix, name, linkPath);
  }

  method WriteLinkField(block: array<Byte>, ghost fields: seq<Field>, linkPath: seq<Byte>)
    requires block.Length == BLOCK_SIZE && InBlock(fields) && block[..] == Written(fields)
    modifies block
    ensures var more := fields + [Field(157, if |linkPath| <= 100 then linkPath else [])];
            InBlock(more) && block[..] == Written(more)
  {
    if |linkPath| <= 100 {
      CopyInto(block, 157, linkPath);
      WrittenMore(fields, Field(157, linkPath));
    } else {
      WrittenMore(fields, Field(157, []));
      assert Splice(block[..], 157, []) == block[..];
    }
  }

  /** One octal field, recorded as a write; fails exactly when the value does not fit. */
  method WriteNumber(block: array<Byte>, ghost fields: seq<Field>, at: nat, width: nat, value: U64) returns (ok: bool)
    requires block.Length == BLOCK_SIZE && 1 < width && at + width <= BLOCK_SIZE
    requires InBlock(fields) && block[..] == Written(fields)
    modifies block
    ensures ok <==> value < Pow(8, width - 1)
    ensures var more := fields + [Field(at, OctalField(value, width))];
            InBlock(more) && (ok ==> block[..] == Written(more))
  {
    ok := EncodeOctal(block, at, at + width, value, [0]);
    WrittenMore(fields, Field(at, OctalField(value, width)));
  }

  method WriteNumberFields(block: array<Byte>, ghost text: seq<Field>, mode: U64, size: U64) returns (ok: bool)
    requires block.Length == BLOCK_SIZE && InBlock(text) && block[..] == Written(text)
    requires mode < Pow(8, 7)
    modifies block
    ensures ok <==> size < Pow(8, 11)
    ensures ok ==> InBlock(text + NumberFields(mode, size)) && block[..] == Written(text + NumberFields(mode, size))
  {
    hide Written, OctalDigits, OctalField;
    ghost var written := text;
    ok := WriteNumber(block, written, NAME_END, 8, mode);
    written := written + [Field(NAME_END, OctalField(mode, 8))];
    ok := WriteNumber(block, written, MODE_END, 8, 0);
    written := written + [Field(MODE_END, OctalField(0, 8))];
    ok := WriteNumber(block, written, UID_END, 8, 0);
    written := written + [Field(UID_END, OctalField(0, 8))];
    ok := WriteNumber(block, written, GID_END, 12, size);
    written := written + [Field(GID_END, OctalField(size, 12))];
    if ok {
      WriteUnusedNumbers(block, written);
      assert written + UnusedNumbers() == text + NumberFields(mode, size);
    }
  }

  ghost function UnusedNumbers(): seq<Field>
  {
    [Field(SIZE_END, OctalField(0, 12)), Field(GNAME_END, OctalField(0, 8)), Field(DEVMAJOR_END, OctalField(0, 8))]
  }

  method WriteUnusedNumbers(block: array<Byte>, ghost fields: seq<Field>)
    requires block.Length == BLOCK_SIZE && InBlock(fields) && block[..] == Written(fields)
    modifies block
    ensures InBlock(fields + UnusedNumbers()) && block[..] == Written(fields + UnusedNumbers())
  {
    ghost var written := fields;
    var _ := WriteNumber(block, written, SIZE_END, 12, 0);
    written := written + [Field(SIZE_END, OctalField(0, 12))];
    var _ := WriteNumber(block, written, GNAME_END, 8, 0);
    written := written + [Field(GNAME_END, OctalField(0, 8))];
    var _ := WriteNumber(block, written, DEVMAJOR_END, 8, 0);
    written := written + [Field(DEVMAJOR_END, OctalField(0, 8))];
    ExtendThrice(fields, Field(SIZE_END, OctalField(0, 12)), Field(GNAME_END, OctalField(0, 8)),
                 Field(DEVMAJOR_END, OctalField(0, 8)));
  }

  lemma ExtendThrice(fs: seq<Field>, a: Field, b: Field, c: Field)
    ensures fs + [a] + [b] + [c] == fs + [a, b, c]
  {
  }
}
