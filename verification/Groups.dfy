/** GNU members as they are laid down block by block, with or without long names, and that decoding finds the member described. */
module Groups {
  import opened Octets
  import opened Pax
  import opened Framing
  import opened Grammar
  import opened Logical
  import opened RoundTrip
  import opened Decode
  import opened Layout

  // ------------------------------------------------------- the bytes of a group

  /** A long name or long link name: a header of its own and the name, with NULs behind it, as its payload. */
  datatype LongField = LongField(kind: GnuKind, header: HeaderText, payload: seq<Byte>)

  /** The letter that says which name it is. */
  function LetterOf(kind: GnuKind): Byte { if kind == LongName then 76 else 75 }

  predicate LongHeader(f: LongField)
  {
    f.header.format == GnuFormat && f.header.typeflag == LetterOf(f.kind) && f.header.size == |f.payload|
  }

  /** What the payload spells: everything before a NUL with nothing but NULs behind it. */
  predicate Terminated(payload: seq<Byte>, name: seq<Byte>)
  {
    name < payload && 0 !in name && AllNul(payload[|name|..])
  }

  function LongLength(f: LongField): nat { BLOCK_SIZE + Padded(|f.payload|) }

  /** A header and its payload at the front of the input, in whole blocks. */
  predicate FieldAt(header: HeaderText, payload: seq<Byte>, bytes: seq<Byte>)
  {
    && BLOCK_SIZE + Padded(|payload|) <= |bytes|
    && Laid(bytes[..BLOCK_SIZE], header) && header.size == |payload| && bytes[BLOCK_SIZE..][..|payload|] == payload
  }

  function LongsLength(longs: seq<LongField>): nat
  {
    if longs == [] then 0 else LongLength(longs[0]) + LongsLength(longs[1..])
  }

  /** The fields one behind the other at the front of the input, each payload in whole blocks. */
  predicate LongsLaid(longs: seq<LongField>, bytes: seq<Byte>)
    decreases |longs|
  {
    hide Laid;
    longs == []
    || (&& LongHeader(longs[0]) && FieldAt(longs[0].header, longs[0].payload, bytes)
        && LongsLaid(longs[1..], bytes[LongLength(longs[0])..]))
  }

  /** One of each kind at most. */
  predicate Different(longs: seq<LongField>)
  {
    forall i, j :: 0 <= i < j < |longs| ==> longs[i].kind != longs[j].kind
  }

  predicate Mentions(longs: seq<LongField>, kind: GnuKind)
  {
    exists i :: 0 <= i < |longs| && longs[i].kind == kind
  }

  /** The name a group gives: its long field's, if it has one of that kind, else the header's. */
  predicate NamedBy(longs: seq<LongField>, kind: GnuKind, short: seq<Byte>, name: seq<Byte>)
  {
    && (forall i :: 0 <= i < |longs| && longs[i].kind == kind ==> Terminated(longs[i].payload, name))
    && (!Mentions(longs, kind) ==> name == short)
  }

  // ------------------------------------------------------------ reading a group

  /** Between the headers of a group: which names have been read, and what they were. */
  predicate Between(m: Machine, a: Assembly, seen: PendingGnu)
  {
    && m.format != Some(PaxFormat) && a.extension.None?
    && (m.state == AwaitingGnuMember(seen) || (m.state.AwaitingHeader? && seen == PendingGnu(false, false)))
  }

  /** The extensions once the fields have been read, the first at `position`. */
  function Attached(pending: PendingExtensions, longs: seq<LongField>, position: nat): PendingExtensions
    requires position + LongsLength(longs) < U64_LIMIT
    decreases |longs|
  {
    if longs == [] then pending
    else
      Attached(SetGnu(pending, longs[0].kind, GnuMetadata(position, longs[0].payload)), longs[1..], position + LongLength(longs[0]))
  }

  function SeenAfter(seen: PendingGnu, longs: seq<LongField>): PendingGnu
    decreases |longs|
  {
    if longs == [] then seen else SeenAfter(MarkSeen(seen, longs[0].kind), longs[1..])
  }

  /** The payload of a name is collected whole. */
  lemma {:induction false} NameCollected(
      m: Machine, kind: GnuKind, headerPosition: U64, n: U64, collected: seq<Byte>, seen: PendingGnu, a: Assembly, position: U64,
      bytes: seq<Byte>)
    requires n > 0 && m.state == ReadingGnu(kind, n, seen) && a.extension == Some(GnuPayload(headerPosition, kind, n, collected))
    requires Fits(position, bytes, Padded(n))
    ensures NextMember(m, a, position, bytes) ==
            NextMember(m.(state := AwaitingGnuMember(seen)),
                       Assembly(SetGnu(a.pending, kind, GnuMetadata(headerPosition, collected + bytes[..n])), None, a.globals),
                       position + Padded(n), bytes[Padded(n)..])
    decreases n
  {
    hide Step, NextFrame, NextMember, SetGnu, Absorb;
    var block := bytes[..BLOCK_SIZE];
    NameBlockStep(m, kind, n, seen, position, block);
    NameBlockAbsorbed(a, headerPosition, kind, n, collected, position, block);
    if n <= BLOCK_SIZE {
      assert block[..n] == bytes[..n];
      FrameAbsorbed(m, a, position, bytes, m.(state := AwaitingGnuMember(seen)), DataFrame(position, block, n, GnuData(kind), None));
    } else {
      var rest := bytes[BLOCK_SIZE..];
      var m1, a1 := m.(state := ReadingGnu(kind, n - BLOCK_SIZE, seen)),
                    a.(extension := Some(GnuPayload(headerPosition, kind, n - BLOCK_SIZE, collected + block)));
      FrameAbsorbed(m, a, position, bytes, m1, DataFrame(position, block, BLOCK_SIZE, GnuData(kind), None));
      assert collected + bytes[..n] == collected + block + rest[..n - BLOCK_SIZE];
      NameCollected(m1, kind, headerPosition, n - BLOCK_SIZE, collected + block, seen, a1, position + BLOCK_SIZE, rest);
      assert bytes[Padded(n)..] == rest[Padded(n - BLOCK_SIZE)..];
    }
  }

  lemma NameBlockStep(m: Machine, kind: GnuKind, n: U64, seen: PendingGnu, position: U64, block: Block)
    requires n > 0 && m.state == ReadingGnu(kind, n, seen)
    ensures Step(m, position, block) ==
            if n <= BLOCK_SIZE then Ok((m.(state := AwaitingGnuMember(seen)), Some(DataFrame(position, block, n, GnuData(kind), None))))
            else Ok((m.(state := ReadingGnu(kind, n - BLOCK_SIZE, seen)), Some(DataFrame(position, block, BLOCK_SIZE, GnuData(kind), None))))
  {
  }

  lemma NameBlockAbsorbed(a: Assembly, headerPosition: U64, kind: GnuKind, n: U64, collected: seq<Byte>, position: U64, block: Block)
    requires n > 0 && a.extension == Some(GnuPayload(headerPosition, kind, n, collected))
    ensures n <= BLOCK_SIZE ==>
              Absorb(a, DataFrame(position, block, n, GnuData(kind), None))
              == Ok(Assembly(SetGnu(a.pending, kind, GnuMetadata(headerPosition, collected + block[..n])), None, a.globals))
    ensures n > BLOCK_SIZE ==>
              Absorb(a, DataFrame(position, block, BLOCK_SIZE, GnuData(kind), None))
              == Ok(a.(extension := Some(GnuPayload(headerPosition, kind, n - BLOCK_SIZE, collected + block))))
  {
    assert block[..BLOCK_SIZE] == block;
  }

  /** The header of a name is taken in, if no name of its kind came before. */
  lemma NameHeaderStep(m: Machine, a: Assembly, seen: PendingGnu, f: LongField, position: U64, block: Block)
    requires Between(m, a, seen) && !Seen(seen, f.kind) && LongHeader(f) && Laid(block, f.header)
    requires |f.payload| <= m.policy.maxGnuExtensionSize
    ensures var size: U64, after := |f.payload|, MarkSeen(seen, f.kind);
            Step(m, position, block) ==
            Ok((m.(state := if size == 0 then AwaitingGnuMember(after) else ReadingGnu(f.kind, size, after), format := Some(GnuFormat)),
                Some(GnuFrame(position, block, f.kind, size))))
  {
    hide ParseHeader, IsZeroBlock, Layout.IsHeader, Numbered, Named, GnuHeader;
    HeaderReads(position, block, GnuFormat, f.header.typeflag, f.header.size);
  }

  lemma NameHeaderAbsorbed(a: Assembly, position: U64, block: Block, kind: GnuKind, size: U64)
    ensures Absorb(a, GnuFrame(position, block, kind, size)) ==
            if size == 0 then Ok(a.(pending := SetGnu(a.pending, kind, GnuMetadata(position, []))))
            else Ok(a.(extension := Some(GnuPayload(position, kind, size, []))))
  {
  }

  /** One name, header and payload. */
  lemma NameReads(m: Machine, a: Assembly, seen: PendingGnu, f: LongField, position: U64, bytes: seq<Byte>)
    requires Between(m, a, seen) && !Seen(seen, f.kind) && LongHeader(f) && |f.payload| <= m.policy.maxGnuExtensionSize
    requires Fits(position, bytes, LongLength(f)) && FieldAt(f.header, f.payload, bytes)
    ensures NextMember(m, a, position, bytes) ==
            NextMember(m.(state := AwaitingGnuMember(MarkSeen(seen, f.kind)), format := Some(GnuFormat)),
                       a.(pending := SetGnu(a.pending, f.kind, GnuMetadata(position, f.payload))),
                       position + LongLength(f), bytes[LongLength(f)..])
  {
    hide Step, NextMember, SetGnu, Absorb, Laid, MarkSeen, Seen;
    var block, size: U64, after := bytes[..BLOCK_SIZE], |f.payload|, MarkSeen(seen, f.kind);
    NameHeaderStep(m, a, seen, f, position, block);
    NameHeaderAbsorbed(a, position, block, f.kind, size);
    var m1 := m.(state := if size == 0 then AwaitingGnuMember(after) else ReadingGnu(f.kind, size, after), format := Some(GnuFormat));
    FrameAbsorbed(m, a, position, bytes, m1, GnuFrame(position, block, f.kind, size));
    if size > 0 {
      var a1, rest := a.(extension := Some(GnuPayload(position, f.kind, size, []))), bytes[BLOCK_SIZE..];
      NameCollected(m1, f.kind, position, size, [], after, a1, position + BLOCK_SIZE, rest);
      assert [] + rest[..size] == f.payload;
      assert rest[Padded(size)..] == bytes[LongLength(f)..];
    }
  }

  /** Where a machine stands once the names of a group have been read. */
  function Behind(m: Machine, seen: PendingGnu, longs: seq<LongField>): Machine
  {
    if longs == [] then m else m.(state := AwaitingGnuMember(SeenAfter(seen, longs)), format := Some(GnuFormat))
  }

  predicate Readable(m: Machine, seen: PendingGnu, longs: seq<LongField>)
  {
    && Different(longs)
    && forall i :: 0 <= i < |longs| ==> !Seen(seen, longs[i].kind) && |longs[i].payload| <= m.policy.maxGnuExtensionSize
  }

  /** All the names of a group. */
  lemma {:induction false} NamesRead(m: Machine, a: Assembly, seen: PendingGnu, longs: seq<LongField>, position: U64, bytes: seq<Byte>)
    requires Between(m, a, seen) && Readable(m, seen, longs) && LongsLaid(longs, bytes)
    requires Fits(position, bytes, LongsLength(longs))
    ensures var n := LongsLength(longs);
            NextMember(m, a, position, bytes) ==
            NextMember(Behind(m, seen, longs), a.(pending := Attached(a.pending, longs, position)), position + n, bytes[n..])
    ensures Between(Behind(m, seen, longs), a.(pending := Attached(a.pending, longs, position)), SeenAfter(seen, longs))
    decreases |longs|
  {
    hide NextMember, SetGnu, Laid, MarkSeen, Seen, LongHeader;
    if longs == [] {
      assert bytes[0..] == bytes;
    } else {
      var f, rest, n := longs[0], longs[1..], LongLength(longs[0]);
      NameReads(m, a, seen, f, position, bytes);
      var m1 := m.(state := AwaitingGnuMember(MarkSeen(seen, f.kind)), format := Some(GnuFormat));
      var a1 := a.(pending := SetGnu(a.pending, f.kind, GnuMetadata(position, f.payload)));
      OthersLeft(m, seen, longs);
      NamesRead(m1, a1, MarkSeen(seen, f.kind), rest, position + n, bytes[n..]);
      assert bytes[n..][LongsLength(rest)..] == bytes[LongsLength(longs)..];
    }
  }

  lemma OthersLeft(m: Machine, seen: PendingGnu, longs: seq<LongField>)
    requires longs != [] && Readable(m, seen, longs)
    ensures Readable(m, MarkSeen(seen, longs[0].kind), longs[1..])
    ensures !Seen(seen, longs[0].kind) && |longs[0].payload| <= m.policy.maxGnuExtensionSize
  {
    assert forall i :: 0 <= i < |longs| - 1 ==> longs[1..][i] == longs[i + 1];
  }

  /** The member's own header, behind its names. */
  lemma MemberStep(m: Machine, a: Assembly, seen: PendingGnu, t: HeaderText, kind: UstarKind, position: U64, block: Block)
    requires Between(m, a, seen) && Laid(block, t) && t.format == GnuFormat && IsTypeOf(t.typeflag, kind)
    requires SizeFits(GnuFormat, kind, t.size) && (seen.longLink ==> kind == HardLink || kind == SymbolicLink)
    requires m.policy.allowAllNulNumericFields || NothingBlank(t)
    ensures Step(m, position, block) ==
            Ok((m.(state := MemberPayloadState(t.size), format := Some(GnuFormat)), Some(HeaderFrame(Read(position, block, t, kind, t.size)))))
  {
    hide ParseHeader, IsZeroBlock, Layout.IsHeader, Numbered, Named, GnuHeader, NothingBlank;
    HeaderReads(position, block, GnuFormat, t.typeflag, t.size);
    GnuReads(position, block, t, kind, seen.longLink, m.policy.allowAllNulNumericFields);
  }

  /** The header a reader makes of the block: every part from its own field. */
  function LogicalText(position: U64, t: HeaderText, kind: UstarKind, size: U64): LogicalHeader
  {
    LogicalHeader(position, t.format, kind, t.size, size, t.mode, t.uid, t.gid, t.mtime, t.uname, t.gname, PathText(t), t.linkName)
  }

  /** A GNU group laid down at a member boundary: its names, then the member's header. */
  predicate GroupLaid(longs: seq<LongField>, t: HeaderText, kind: UstarKind, bytes: seq<Byte>)
  {
    && Different(longs) && LongsLaid(longs, bytes) && LongsLength(longs) + BLOCK_SIZE <= |bytes|
    && Laid(bytes[LongsLength(longs)..][..BLOCK_SIZE], t)
    && t.format == GnuFormat && IsTypeOf(t.typeflag, kind) && SizeFits(GnuFormat, kind, t.size)
    && (Mentions(longs, LongLink) ==> kind == HardLink || kind == SymbolicLink)
  }

  /** What the reader's policy must allow. */
  predicate PolicyAllows(policy: StreamPolicy, longs: seq<LongField>, t: HeaderText)
  {
    && (forall i :: 0 <= i < |longs| ==> |longs[i].payload| <= policy.maxGnuExtensionSize)
    && (policy.allowAllNulNumericFields || NothingBlank(t))
  }

  lemma {:induction false} LinkSeen(seen: PendingGnu, longs: seq<LongField>)
    ensures SeenAfter(seen, longs).longLink <==> seen.longLink || Mentions(longs, LongLink)
    decreases |longs|
  {
    if longs != [] {
      LinkSeen(MarkSeen(seen, longs[0].kind), longs[1..]);
      assert forall i :: 0 < i < |longs| ==> longs[i] == longs[1..][i - 1];
      if Mentions(longs[1..], LongLink) {
        var i :| 0 <= i < |longs| - 1 && longs[1..][i].kind == LongLink;
        assert longs[i + 1].kind == LongLink;
      }
    }
  }

  /** A group is read as one member: its header, with the names in front of it attached. */
  lemma GroupReads(
      m: Machine, globals: seq<PaxRecord>, longs: seq<LongField>, t: HeaderText, kind: UstarKind, position: U64, bytes: seq<Byte>)
    requires m.state.AwaitingHeader? && m.format != Some(PaxFormat) && PolicyAllows(m.policy, longs, t)
    requires GroupLaid(longs, t, kind, bytes) && Fits(position, bytes, LongsLength(longs) + BLOCK_SIZE)
    ensures var n := LongsLength(longs); var attached := Attached(NO_EXTENSIONS, longs, position);
            NextMember(m, Assembly(NO_EXTENSIONS, None, globals), position, bytes) ==
            MemberFound(m.(state := MemberPayloadState(t.size), format := Some(GnuFormat)), Assembly(NO_EXTENSIONS, None, globals),
                        LogicalText(position + n, t, kind, t.size), GnuState(attached.longName, attached.longLink),
                        position + n + BLOCK_SIZE, bytes[n + BLOCK_SIZE..])
  {
    hide NextMember, Step, Laid, Attached, LongsLaid, LogicalHeaderOf, IsTypeOf, NothingBlank, SeenAfter;
    var a, none, n := Assembly(NO_EXTENSIONS, None, globals), PendingGnu(false, false), LongsLength(longs);
    NamesRead(m, a, none, longs, position, bytes);
    LinkSeen(none, longs);
    var m1, a1, block := Behind(m, none, longs), a.(pending := Attached(NO_EXTENSIONS, longs, position)), bytes[n..][..BLOCK_SIZE];
    MemberStep(m1, a1, SeenAfter(none, longs), t, kind, position + n, block);
    FrameAbsorbed(m1, a1, position + n, bytes[n..], m.(state := MemberPayloadState(t.size), format := Some(GnuFormat)),
                  HeaderFrame(Read(position + n, block, t, kind, t.size)));
    LaidIsNamed(block, t);
    LogicalReads(position + n, block, t, kind, t.size);
    assert bytes[n..][BLOCK_SIZE..] == bytes[n + BLOCK_SIZE..];
  }

  lemma LaidIsNamed(block: Block, t: HeaderText)
    requires Laid(block, t)
    ensures Named(block, t)
  {
  }

  // ------------------------------------------------------- the member described

  /** Somebody may execute it: the low bit of one of the three permission digits. */
  predicate SomeExecute(mode: Option<U64>)
  {
    mode.Some? && exists digit :: digit in {mode.value % 8, mode.value / 8 % 8, mode.value / 64 % 8} && digit % 2 == 1
  }

  /** The member that a header and its effective names describe. */
  function Described(t: HeaderText, kind: UstarKind, path: Text, target: Text, position: U64): Member
  {
    match kind
    case Regular => FileMember(path, position, t.size, SomeExecute(t.mode))
    case Contiguous => FileMember(path, position, t.size, SomeExecute(t.mode))
    case Directory => DirectoryMember(path, position)
    case SymbolicLink => SymbolicLinkMember(path, position, target)
    case HardLink => HardLinkMember(path, position, target, t.size)
    case other => SpecialMember(path, position, other)
  }

  predicate UsableNames(path: seq<Byte>, target: seq<Byte>)
  {
    path != [] && 0 !in path && ValidUtf8(path) && 0 !in target && ValidUtf8(target)
  }

  lemma LowBit(n: nat)
    ensures n % 8 % 2 == n % 2
  {
    var q := n / 8;
    assert n == 2 * (4 * q) + n % 8;
  }

  /** A digit is odd exactly when the bit the decoder tests is set. */
  lemma ExecuteBits(mode: U64)
    ensures Executable(mode) <==> SomeExecute(Some(mode))
  {
    LowBit(mode);
    LowBit(mode / 8);
    LowBit(mode / 64);
    OddDigit(mode % 8, mode / 8 % 8, mode / 64 % 8);
  }

  lemma OddDigit(a: nat, b: nat, c: nat)
    ensures (exists digit :: digit in {a, b, c} && digit % 2 == 1) <==> a % 2 == 1 || b % 2 == 1 || c % 2 == 1
  {
    assert a in {a, b, c} && b in {a, b, c} && c in {a, b, c};
  }

  /** With its names settled, a header is projected to the member it describes. */
  lemma ProjectsDescribed(h: LogicalHeader, extensions: MemberExtensions, t: HeaderText, path: Text, target: Text)
    requires EffectivePath(h, extensions) == Ok(path) && EffectiveLinkPath(h, extensions) == Ok(target)
    requires h.effectiveSize == t.size && h.mode == t.mode
    ensures ProjectMember(h, extensions) == Ok(Described(t, h.kind, path, target, h.position))
  {
    hide EffectivePath, EffectiveLinkPath, ValidUtf8, SomeExecute, Executable;
    if t.mode.Some? { ExecuteBits(t.mode.value); }
    NoModeNoExecute(t.mode);
  }

  lemma NoModeNoExecute(mode: Option<U64>)
    ensures SomeExecute(mode) ==> mode.Some?
  {
  }

  lemma KindsDiffer(longs: seq<LongField>, i: nat, j: nat)
    requires Different(longs) && i < j < |longs|
    ensures longs[i].kind != longs[j].kind
  {
  }

  lemma AtMostTwo(longs: seq<LongField>)
    requires Different(longs)
    ensures |longs| <= 2
  {
    hide Different;
    if |longs| > 2 {
      KindsDiffer(longs, 0, 1);
      KindsDiffer(longs, 0, 2);
      KindsDiffer(longs, 1, 2);
    }
  }

  lemma AttachedStep(pending: PendingExtensions, longs: seq<LongField>, position: nat)
    requires position + LongsLength(longs) < U64_LIMIT
    ensures longs == [] ==> LongsLength(longs) == 0 && Attached(pending, longs, position) == pending
    ensures longs != [] ==>
              && LongsLength(longs) == LongLength(longs[0]) + LongsLength(longs[1..]) && LongLength(longs[0]) > 0
              && Attached(pending, longs, position) ==
                 Attached(SetGnu(pending, longs[0].kind, GnuMetadata(position, longs[0].payload)), longs[1..], position + LongLength(longs[0]))
  {
    hide SetGnu;
  }

  /** What is attached, and where the group starts. */
  lemma NamesAttached(longs: seq<LongField>, position: nat, h: LogicalHeader)
    requires Different(longs) && position + LongsLength(longs) < U64_LIMIT && h.position == position + LongsLength(longs)
    ensures var x := Attached(NO_EXTENSIONS, longs, position);
            && (x.longName.Some? <==> Mentions(longs, LongName)) && (x.longLink.Some? <==> Mentions(longs, LongLink))
            && (forall i :: 0 <= i < |longs| ==>
                  var found := if longs[i].kind == LongName then x.longName else x.longLink;
                  found.Some? && found.value.payload == longs[i].payload)
            && GnuPosition(h, x.longName, x.longLink) == position
  {
    hide Attached, LongsLength, LongLength;
    AtMostTwo(longs);
    AttachedStep(NO_EXTENSIONS, longs, position);
    if longs != [] {
      var first, rest := longs[0], longs[1..];
      var x, after := SetGnu(NO_EXTENSIONS, first.kind, GnuMetadata(position, first.payload)), position + LongLength(first);
      AttachedStep(x, rest, after);
      if rest != [] {
        assert rest[0] == longs[1] && rest[1..] == [];
        AttachedStep(SetGnu(x, rest[0].kind, GnuMetadata(after, rest[0].payload)), [], after + LongLength(rest[0]));
      }
    }
  }

  /** A group's name of each kind, as the decoder works it out. */
  lemma NamesEffective(longs: seq<LongField>, t: HeaderText, position: nat, h: LogicalHeader, path: seq<Byte>, target: seq<Byte>)
    requires Different(longs) && position + LongsLength(longs) < U64_LIMIT && h.position == position + LongsLength(longs)
    requires h.path == PathText(t) && h.linkName == t.linkName
    requires NamedBy(longs, LongName, PathText(t), path) && NamedBy(longs, LongLink, t.linkName, target) && UsableNames(path, target)
    ensures var x := Attached(NO_EXTENSIONS, longs, position); var extensions := GnuState(x.longName, x.longLink);
            EffectivePath(h, extensions) == Ok(path) && EffectiveLinkPath(h, extensions) == Ok(target)
  {
    hide Attached, EffectivePath, EffectiveLinkPath, ValidUtf8, LongsLength, Different;
    NamesAttached(longs, position, h);
    var x := Attached(NO_EXTENSIONS, longs, position);
    PathPrecedence(h, GnuState(x.longName, x.longLink));
    LinkPathPrecedence(h, GnuState(x.longName, x.longLink));
    if x.longName.Some? {
      var i :| 0 <= i < |longs| && longs[i].kind == LongName;
      assert SpellsName(x.longName.value, path);
    }
    if x.longLink.Some? {
      var i :| 0 <= i < |longs| && longs[i].kind == LongLink;
      assert SpellsName(x.longLink.value, target);
    }
  }

  /**
   * A GNU group, with or without a long name and a long link name in either order, decodes to the member its fields
   * describe: the long names where there are any, the block's own otherwise. A policy without GNU archives stops at
   * the group's first block.
   */
  lemma GroupDecodes(
      policy: DecodePolicy, m: Machine, globals: seq<PaxRecord>, longs: seq<LongField>, t: HeaderText, kind: UstarKind,
      position: U64, bytes: seq<Byte>, path: Text, target: Text)
    requires m.state.AwaitingHeader? && m.format != Some(PaxFormat) && PolicyAllows(m.policy, longs, t)
    requires GroupLaid(longs, t, kind, bytes) && Fits(position, bytes, LongsLength(longs) + BLOCK_SIZE)
    requires NamedBy(longs, LongName, PathText(t), path) && NamedBy(longs, LongLink, t.linkName, target) && UsableNames(path, target)
    ensures var found := NextMember(m, Assembly(NO_EXTENSIONS, None, globals), position, bytes); var n := LongsLength(longs);
            && found.MemberFound? && found.header == LogicalText(position + n, t, kind, t.size)
            && found.next == position + n + BLOCK_SIZE && found.rest == bytes[n + BLOCK_SIZE..]
            && DecodeMember(policy, found.header, found.extensions) ==
               if policy.allowGnu then Ok(Described(t, kind, path, target, position + n))
               else Err(PolicyViolation(position, GnuArchive))
  {
    hide NextMember, GroupLaid, Attached, EffectivePath, EffectiveLinkPath, ProjectMember, UsableNames, NamedBy, PolicyAllows,
         LongsLength, ValidUtf8, Described;
    GroupReads(m, globals, longs, t, kind, position, bytes);
    var h, x := LogicalText(position + LongsLength(longs), t, kind, t.size), Attached(NO_EXTENSIONS, longs, position);
    GroupIsDifferent(longs, t, kind, bytes);
    NamesAttached(longs, position, h);
    NamesEffective(longs, t, position, h, path, target);
    ProjectsDescribed(h, GnuState(x.longName, x.longLink), t, path, target);
  }

  lemma GroupIsDifferent(longs: seq<LongField>, t: HeaderText, kind: UstarKind, bytes: seq<Byte>)
    requires GroupLaid(longs, t, kind, bytes)
    ensures Different(longs) && t.format == GnuFormat
  {
  }

  // ------------------------------------------------------- whole GNU archives

  /** A member as a GNU archive holds it, and the names its group gives it. */
  datatype GnuEntry = GnuEntry(longs: seq<LongField>, text: HeaderText, kind: UstarKind, path: Text, target: Text, payload: seq<Byte>)

  function GnuLength(e: GnuEntry): nat { LongsLength(e.longs) + BLOCK_SIZE + Padded(|e.payload|) }

  predicate GnuEntryLaid(e: GnuEntry, bytes: seq<Byte>)
  {
    && GnuLength(e) <= |bytes| && GroupLaid(e.longs, e.text, e.kind, bytes) && e.text.size == |e.payload|
    && NamedBy(e.longs, LongName, PathText(e.text), e.path) && NamedBy(e.longs, LongLink, e.text.linkName, e.target)
    && UsableNames(e.path, e.target)
    && bytes[LongsLength(e.longs) + BLOCK_SIZE..][..|e.payload|] == e.payload
  }

  function GnuTotal(entries: seq<GnuEntry>): nat
  {
    if entries == [] then 2 * BLOCK_SIZE else GnuLength(entries[0]) + GnuTotal(entries[1..])
  }

  /** The entries one behind the other, then two zero blocks. */
  predicate GnuArchiveLaid(entries: seq<GnuEntry>, bytes: seq<Byte>)
    decreases |entries|
  {
    hide GnuEntryLaid;
    if entries == [] then 2 * BLOCK_SIZE <= |bytes| && bytes[..2 * BLOCK_SIZE] == Zeros(2 * BLOCK_SIZE)
    else GnuLength(entries[0]) <= |bytes| && GnuEntryLaid(entries[0], bytes) && GnuArchiveLaid(entries[1..], bytes[GnuLength(entries[0])..])
  }

  /** The members described, each positioned at its own header. */
  function GnuMembers(entries: seq<GnuEntry>, position: nat): seq<Decoded>
    requires position + GnuTotal(entries) < U64_LIMIT
  {
    if entries == [] then []
    else
      var e := entries[0];
      [Decoded(Described(e.text, e.kind, e.path, e.target, position + LongsLength(e.longs)), e.payload)]
      + GnuMembers(entries[1..], position + GnuLength(e))
  }

  predicate GnuBoundary(m: Machine)
  {
    m.state.AwaitingHeader? && m.format != Some(PaxFormat) && m.globals == []
  }

  lemma GnuEntryReads(policy: DecodePolicy, m: Machine, e: GnuEntry, position: U64, bytes: seq<Byte>)
    requires GnuBoundary(m) && policy.allowGnu && PolicyAllows(m.policy, e.longs, e.text)
    requires GnuEntryLaid(e, bytes) && Fits(position, bytes, GnuLength(e))
    ensures var n := GnuLength(e); var m' := m.(format := Some(GnuFormat));
            DecodeFrom(policy, NextMember(m, NO_ASSEMBLY, position, bytes)) ==
            match DecodeFrom(policy, NextMember(m', NO_ASSEMBLY, position + n, bytes[n..]))
            case None => None
            case Some(more) =>
              Some([Decoded(Described(e.text, e.kind, e.path, e.target, position + LongsLength(e.longs)), e.payload)] + more)
  {
    hide NextMember, GroupLaid, NamedBy, UsableNames, PolicyAllows, LongsLength, Described, DecodeMember, Attached, ValidUtf8;
    var at := LongsLength(e.longs) + BLOCK_SIZE;
    GroupReads(m, [], e.longs, e.text, e.kind, position, bytes);
    GroupDecodes(policy, m, [], e.longs, e.text, e.kind, position, bytes, e.path, e.target);
    var scan := NextMember(m, NO_ASSEMBLY, position, bytes);
    assert AtBoundary(scan.machine) == m.(format := Some(GnuFormat));
    assert bytes[at..][Padded(|e.payload|)..] == bytes[GnuLength(e)..];
  }

  /** A GNU archive that is laid down entry by entry decodes to the members its entries describe, in order. */
  lemma {:induction false} GnuArchiveDecodes(policy: DecodePolicy, m: Machine, entries: seq<GnuEntry>, position: U64, bytes: seq<Byte>)
    requires GnuBoundary(m) && policy.allowGnu
    requires forall i :: 0 <= i < |entries| ==> PolicyAllows(m.policy, entries[i].longs, entries[i].text)
    requires GnuArchiveLaid(entries, bytes) && Fits(position, bytes, GnuTotal(entries))
    ensures DecodeFrom(policy, NextMember(m, NO_ASSEMBLY, position, bytes)) == Some(GnuMembers(entries, position))
    decreases |entries|
  {
    hide NextMember, DecodeFrom, GnuEntryLaid, PolicyAllows, GnuLength, Described;
    if entries == [] {
      EndMarkerReads(m, NO_ASSEMBLY, position, bytes);
      EndDecodes(policy);
    } else {
      var n := GnuLength(entries[0]);
      GnuEntryReads(policy, m, entries[0], position, bytes);
      GnuArchiveDecodes(policy, m.(format := Some(GnuFormat)), entries[1..], position + n, bytes[n..]);
    }
  }
}
