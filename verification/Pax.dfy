/** Typed pax records, the active global records, and what applies to one member. */
module Pax {
  import opened Octets
  import opened Numbers
  import opened PaxRecords

  datatype PaxKind = Local | Global

  datatype HdrCharset = Utf8 | Binary

  /** A value, or the tombstone an empty record leaves. */
  datatype PaxValue = Value(content: PaxContent) | Deleted

  datatype PaxContent =
    | Number(n: U64)
    | Plain(text: Text)
    | Utf8String(text: Text)
    | BinaryString(bytes: seq<Byte>)
    | Charset(charset: HdrCharset)
    | Opaque(bytes: seq<Byte>)

  datatype PaxKeyword =
    | AtimeKey | CharsetKey | CommentKey | CtimeKey | GidKey | GnameKey | HdrCharsetKey | LinkPathKey
    | MtimeKey | PathKey | SizeKey | UidKey | UnameKey
    | RealtimeKey(name: Text)
    | SecurityKey(name: Text)
    | VendorKey(vendor: Text, name: Text)

  datatype PaxRecord = PaxRecord(keyword: PaxKeyword, value: PaxValue)

  const KW_ATIME: seq<Byte> := [97, 116, 105, 109, 101]
  const KW_CHARSET: seq<Byte> := [99, 104, 97, 114, 115, 101, 116]
  const KW_COMMENT: seq<Byte> := [99, 111, 109, 109, 101, 110, 116]
  const KW_CTIME: seq<Byte> := [99, 116, 105, 109, 101]
  const KW_GID: seq<Byte> := [103, 105, 100]
  const KW_GNAME: seq<Byte> := [103, 110, 97, 109, 101]
  const KW_HDRCHARSET: seq<Byte> := [104, 100, 114, 99, 104, 97, 114, 115, 101, 116]
  const KW_LINKPATH: seq<Byte> := [108, 105, 110, 107, 112, 97, 116, 104]
  const KW_MTIME: seq<Byte> := [109, 116, 105, 109, 101]
  const KW_PATH: seq<Byte> := [112, 97, 116, 104]
  const KW_SIZE: seq<Byte> := [115, 105, 122, 101]
  const KW_UID: seq<Byte> := [117, 105, 100]
  const KW_UNAME: seq<Byte> := [117, 110, 97, 109, 101]
  const KW_REALTIME: seq<Byte> := [114, 101, 97, 108, 116, 105, 109, 101]
  const KW_SECURITY: seq<Byte> := [115, 101, 99, 117, 114, 105, 116, 121]

  /** `ISO-IR 10646 2000 UTF-8`. */
  const CHARSET_UTF8: seq<Byte> :=
    [73, 83, 79, 45, 73, 82, 32, 49, 48, 54, 52, 54, 32, 50, 48, 48, 48, 32, 85, 84, 70, 45, 56]
  /** `BINARY`. */
  const CHARSET_BINARY: seq<Byte> := [66, 73, 78, 65, 82, 89]

  // --------------------------------------------------------- value parsing

  function ParseInteger(keyword: seq<Byte>, value: seq<Byte>): Result<PaxValue, PaxError>
  {
    if !ValidUtf8(value) then Err(InvalidUtf8)
    else if value == [] then Ok(Deleted)
    else
      match ParseDecimal(value)
      case Some(n) => Ok(Value(Number(n)))
      case None => Err(InvalidInteger(keyword, value))
  }

  /** Seconds, with an optional nonempty decimal fraction that is dropped. */
  function ParseTime(keyword: seq<Byte>, value: seq<Byte>): Result<PaxValue, PaxError>
  {
    if !ValidUtf8(value) then Err(InvalidUtf8)
    else if value == [] then Ok(Deleted)
    else
      var dot := Find(value, DOT);
      if dot.Some? && (dot.value + 1 == |value| || !AllDigits(value[dot.value + 1..])) then Err(InvalidTime(keyword, value))
      else
        match ParseDecimal(if dot.Some? then value[..dot.value] else value)
        case Some(n) => Ok(Value(Number(n)))
        case None => Err(InvalidTime(keyword, value))
  }

  function ParseText(value: seq<Byte>): Result<PaxValue, PaxError>
  {
    if !ValidUtf8(value) then Err(InvalidUtf8)
    else if value == [] then Ok(Deleted)
    else Ok(Value(Plain(value)))
  }

  function ParseString(value: seq<Byte>, charset: HdrCharset): Result<PaxValue, PaxError>
  {
    if value == [] then Ok(Deleted)
    else if charset == Binary then Ok(Value(BinaryString(value)))
    else if !ValidUtf8(value) then Err(InvalidUtf8)
    else Ok(Value(Utf8String(value)))
  }

  function ParseHdrCharset(value: seq<Byte>): (r: Result<PaxValue, PaxError>)
    ensures r.Ok? && r.value.Value? ==> r.value.content.Charset?
  {
    if !ValidUtf8(value) then Err(InvalidUtf8)
    else if value == [] then Ok(Deleted)
    else if value == CHARSET_UTF8 then Ok(Value(Charset(Utf8)))
    else if value == CHARSET_BINARY then Ok(Value(Charset(Binary)))
    else Err(UnsupportedCharset(value))
  }

  function Keyed(key: PaxKeyword, value: Result<PaxValue, PaxError>): Result<PaxRecord, PaxError>
  {
    match value
    case Err(e) => Err(e)
    case Ok(v) => Ok(PaxRecord(key, v))
  }

  function ParseRecord(raw: RawRecord, charset: HdrCharset): Result<PaxRecord, PaxError>
  {
    var k, v := raw.keyword, raw.value;
    if k == KW_ATIME then Keyed(AtimeKey, ParseTime(k, v))
    else if k == KW_CHARSET then Keyed(CharsetKey, ParseText(v))
    else if k == KW_COMMENT then Keyed(CommentKey, ParseText(v))
    else if k == KW_CTIME then Keyed(CtimeKey, ParseTime(k, v))
    else if k == KW_GID then Keyed(GidKey, ParseInteger(k, v))
    else if k == KW_GNAME then Keyed(GnameKey, ParseString(v, charset))
    else if k == KW_HDRCHARSET then Keyed(HdrCharsetKey, ParseHdrCharset(v))
    else if k == KW_LINKPATH then Keyed(LinkPathKey, ParseString(v, charset))
    else if k == KW_MTIME then Keyed(MtimeKey, ParseTime(k, v))
    else if k == KW_PATH then Keyed(PathKey, ParseString(v, charset))
    else if k == KW_SIZE then Keyed(SizeKey, ParseInteger(k, v))
    else if k == KW_UID then Keyed(UidKey, ParseInteger(k, v))
    else if k == KW_UNAME then Keyed(UnameKey, ParseString(v, charset))
    else ParseNamespaced(k, v)
  }

  function ParseNamespaced(k: Text, v: seq<Byte>): Result<PaxRecord, PaxError>
  {
    match Find(k, DOT)
    case None => Err(InvalidKeyword(k))
    case Some(dot) =>
      Utf8Split(k, dot);
      var namespace, name := k[..dot], k[dot + 1..];
      if name == [] || namespace == [] then Err(InvalidKeyword(k))
      else if namespace == KW_REALTIME then Keyed(RealtimeKey(name), ParseText(v))
      else if namespace == KW_SECURITY then Keyed(SecurityKey(name), ParseText(v))
      else Ok(PaxRecord(VendorKey(namespace, name), if v == [] then Deleted else Value(Opaque(v))))
  }

  /** Splitting text at an ASCII byte leaves text on both sides. */
  lemma {:induction false} Utf8Split(s: seq<Byte>, at: nat)
    requires ValidUtf8(s) && at < |s| && s[at] < 0x80
    ensures ValidUtf8(s[..at]) && ValidUtf8(s[at + 1..])
    decreases |s|
  {
    var n := CharLength(s);
    if at > 0 {
      assert n <= at;
      Utf8Split(s[n..], at - n);
      assert s[n..][at - n + 1..] == s[at + 1..];
      assert s[..at][n..] == s[n..][..at - n];
      assert CharLength(s[..at]) == n;
    } else {
      assert s[..0] == [];
    }
  }

  /** The charset of one header's strings: its own last `hdrcharset` record, else the inherited one. */
  function ResolveHdrCharset(records: seq<RawRecord>, inherited: HdrCharset): Result<HdrCharset, PaxError>
  {
    if records == [] then Ok(inherited)
    else if records[0].keyword != KW_HDRCHARSET then ResolveHdrCharset(records[1..], inherited)
    else
      match ParseHdrCharset(records[0].value)
      case Err(e) => Err(e)
      case Ok(Deleted) => ResolveHdrCharset(records[1..], Utf8)
      case Ok(Value(content)) => ResolveHdrCharset(records[1..], content.charset)
  }

  function ParseEach(records: seq<RawRecord>, charset: HdrCharset): (r: Result<seq<PaxRecord>, PaxError>)
    ensures r.Ok? ==> |r.value| == |records|
    ensures r.Ok? ==> forall i :: 0 <= i < |records| ==> ParseRecord(records[i], charset) == Ok(r.value[i])
  {
    hide ParseRecord;
    if records == [] then Ok([])
    else
      match ParseRecord(records[0], charset)
      case Err(e) => Err(e)
      case Ok(first) =>
        match ParseEach(records[1..], charset)
        case Err(e) => Err(e)
        case Ok(rest) => Ok([first] + rest)
  }

  /** A complete extended-header payload. */
  function ParsePayload(payload: seq<Byte>, inherited: HdrCharset): (r: Result<seq<PaxRecord>, PaxError>)
    ensures r.Ok? ==> r.value != []
  {
    if payload == [] then Err(InvalidRecords(NoRecords))
    else
      match SplitRecords(payload, 0)
      case Err(e) => Err(e)
      case Ok(raw) =>
        match ResolveHdrCharset(raw, inherited)
        case Err(e) => Err(e)
        case Ok(charset) => ParseEach(raw, charset)
  }

  // ------------------------------------------------------------ precedence

  /** The last record for a keyword, tombstones included. */
  function LastRecord(records: seq<PaxRecord>, key: PaxKeyword): (r: Option<PaxRecord>)
    ensures r.Some? ==> r.value in records && r.value.keyword == key
    ensures r.None? <==> forall i :: 0 <= i < |records| ==> records[i].keyword != key
  {
    if records == [] then None
    else if records[|records| - 1].keyword == key then Some(records[|records| - 1])
    else
      var init := records[..|records| - 1];
      assert records == init + [records[|records| - 1]];
      LastRecord(init, key)
  }

  lemma {:induction false} LastRecordConcat(a: seq<PaxRecord>, b: seq<PaxRecord>, key: PaxKeyword)
    ensures LastRecord(a + b, key) == if LastRecord(b, key).Some? then LastRecord(b, key) else LastRecord(a, key)
    decreases |b|
  {
    if b == [] {
      assert a + b == a;
    } else {
      assert (a + b)[..|a + b| - 1] == a + b[..|b| - 1];
      LastRecordConcat(a, b[..|b| - 1], key);
    }
  }

  /** Local records shadow global ones, a local tombstone included. */
  function EffectiveRecord(local: Option<seq<PaxRecord>>, globals: seq<PaxRecord>, key: PaxKeyword): Option<PaxRecord>
  {
    if local.Some? && LastRecord(local.value, key).Some? then LastRecord(local.value, key)
    else LastRecord(globals, key)
  }

  /** The charset the global records in force establish. */
  function GlobalCharset(globals: seq<PaxRecord>): HdrCharset
  {
    match LastRecord(globals, HdrCharsetKey)
    case Some(PaxRecord(_, Value(Charset(charset)))) => charset
    case _ => Utf8
  }

  /** Where a record's charset came from does not matter: reading with the last `hdrcharset` is independent of its place. */
  lemma {:induction false} CharsetIsLastWins(raw: seq<RawRecord>, inherited: HdrCharset, charset: HdrCharset, parsed: seq<PaxRecord>)
    requires ResolveHdrCharset(raw, inherited).Ok?
    requires ParseEach(raw, charset) == Ok(parsed)
    ensures ResolveHdrCharset(raw, inherited).value ==
            if LastRecord(parsed, HdrCharsetKey).Some? then GlobalCharset(parsed) else inherited
  {
    hide ParseRecord, ParseHdrCharset, GlobalCharset;
    if raw != [] {
      var first := ParseRecord(raw[0], charset).value;
      var rest := ParseEach(raw[1..], charset).value;
      assert parsed == [first] + rest;
      LastRecordConcat([first], rest, HdrCharsetKey);
      KeywordOfParsed(raw[0], charset);
      var next := if raw[0].keyword != KW_HDRCHARSET then inherited
                  else if first.value.Deleted? then Utf8 else first.value.content.charset;
      CharsetOfRecord(raw[0], first);
      CharsetIsLastWins(raw[1..], next, charset, rest);
      SameLastCharset(parsed, rest);
      if LastRecord(rest, HdrCharsetKey).None? {
        assert LastRecord(parsed, HdrCharsetKey) == LastRecord([first], HdrCharsetKey);
        SameLastCharset(parsed, [first]);
        assert [first][..0] == [];
      }
    }
  }

  lemma SameLastCharset(a: seq<PaxRecord>, b: seq<PaxRecord>)
    ensures LastRecord(a, HdrCharsetKey) == LastRecord(b, HdrCharsetKey) ==> GlobalCharset(a) == GlobalCharset(b)
  {
  }

  lemma CharsetOfRecord(raw: RawRecord, record: PaxRecord)
    requires raw.keyword == KW_HDRCHARSET && record.keyword == HdrCharsetKey ==> ParseHdrCharset(raw.value) == Ok(record.value)
    ensures raw.keyword == KW_HDRCHARSET && record.keyword == HdrCharsetKey ==>
              (record.value.Value? ==> record.value.content.Charset?)
              && GlobalCharset([record]) == if record.value.Deleted? then Utf8 else record.value.content.charset
  {
    assert LastRecord([record], record.keyword) == Some(record);
  }

  lemma KeywordOfParsed(raw: RawRecord, charset: HdrCharset)
    requires ParseRecord(raw, charset).Ok?
    ensures var r := ParseRecord(raw, charset).value;
            && (raw.keyword == KW_HDRCHARSET <==> r.keyword == HdrCharsetKey)
            && (raw.keyword == KW_HDRCHARSET ==> ParseHdrCharset(raw.value) == Ok(r.value))
  {
    NamespacedKeyword(raw.keyword, raw.value);
    hide ParseTime, ParseText, ParseInteger, ParseString, ParseHdrCharset, ParseNamespaced, ValidUtf8;
  }

  lemma NamespacedKeyword(k: Text, v: seq<Byte>)
    ensures ParseNamespaced(k, v).Ok? ==> ParseNamespaced(k, v).value.keyword != HdrCharsetKey
  {
    hide ParseText, ValidUtf8;
  }

  // ----------------------------------------------------------- the methods

  /** Walks a cursor over the payload, one delimited record at a time. */
  method SplitPayload(payload: seq<Byte>) returns (r: Result<seq<RawRecord>, PaxError>)
    ensures r == SplitRecords(payload, 0)
  {
    hide NextRecord;
    var raw: seq<RawRecord> := [];
    var cursor := 0;
    assert SplitRecords(payload, 0).Ok? ==> [] + SplitRecords(payload, 0).value == SplitRecords(payload, 0).value;
    while cursor < |payload|
      invariant cursor <= |payload|
      invariant SplitRecords(payload, 0) == Prepend(raw, SplitRecords(payload, cursor))
      decreases |payload| - cursor
    {
      match NextRecord(payload, cursor)
      case Err(e) => return Err(e);
      case Ok((record, end)) =>
        PrependMore(raw, record, SplitRecords(payload, end));
        raw := raw + [record];
        cursor := end;
    }
    assert raw + [] == raw;
    return Ok(raw);
  }

  /** Splits a payload, resolves its charset, then types each record. */
  method ParsePaxRecords(payload: seq<Byte>, inherited: HdrCharset) returns (r: Result<seq<PaxRecord>, PaxError>)
    ensures r == ParsePayload(payload, inherited)
  {
    hide SplitRecords, ResolveHdrCharset, ParseEach;
    if payload == [] {
      return Err(InvalidRecords(NoRecords));
    }
    var raw := SplitPayload(payload);
    match raw
    case Err(e) => return Err(e);
    case Ok(records) =>
      var charset := ResolveCharset(records, inherited);
      match charset
      case Err(e) => return Err(e);
      case Ok(c) => return ParseEach(records, c);
  }

  /** Scans a header's records for its charset before any of them is typed. */
  method ResolveCharset(raw: seq<RawRecord>, inherited: HdrCharset) returns (r: Result<HdrCharset, PaxError>)
    ensures r == ResolveHdrCharset(raw, inherited)
  {
    hide ParseHdrCharset;
    var charset := inherited;
    for i := 0 to |raw|
      invariant ResolveHdrCharset(raw, inherited) == ResolveHdrCharset(raw[i..], charset)
    {
      assert raw[i..][1..] == raw[i + 1..];
      if raw[i].keyword == KW_HDRCHARSET {
        match ParseHdrCharset(raw[i].value)
        case Err(e) => return Err(e);
        case Ok(Deleted) => charset := Utf8;
        case Ok(Value(content)) => charset := content.charset;
      }
    }
    return Ok(charset);
  }

  function Prepend(done: seq<RawRecord>, rest: Result<seq<RawRecord>, PaxError>): Result<seq<RawRecord>, PaxError>
  {
    match rest
    case Err(e) => Err(e)
    case Ok(records) => Ok(done + records)
  }

  lemma PrependMore(done: seq<RawRecord>, record: RawRecord, rest: Result<seq<RawRecord>, PaxError>)
    ensures Prepend(done + [record], rest) == Prepend(done, Prepend([record], rest))
  {
    if rest.Ok? {
      assert done + [record] + rest.value == done + ([record] + rest.value);
    }
  }

  // --------------------------------------------------- the records in force

  /** The slot holding a keyword's record. */
  function SlotOf(slots: seq<PaxRecord>, key: PaxKeyword): (r: Option<nat>)
    ensures r.Some? ==> r.value < |slots| && slots[r.value].keyword == key
    ensures r.None? <==> forall i :: 0 <= i < |slots| ==> slots[i].keyword != key
  {
    if slots == [] then None
    else if slots[0].keyword == key then Some(0)
    else
      match SlotOf(slots[1..], key)
      case None => None
      case Some(i) => Some(i + 1)
  }

  /** One slot per keyword, in order of first appearance, each with the latest record. */
  function Slots(history: seq<PaxRecord>): seq<PaxRecord>
  {
    if history == [] then []
    else
      var slots, update := Slots(history[..|history| - 1]), history[|history| - 1];
      match SlotOf(slots, update.keyword)
      case Some(i) => slots[i := update]
      case None => slots + [update]
  }

  ghost predicate DistinctKeywords(slots: seq<PaxRecord>)
  {
    forall i, j :: 0 <= i < j < |slots| ==> slots[i].keyword != slots[j].keyword
  }

  lemma OnlySlot(slots: seq<PaxRecord>, i: nat)
    requires DistinctKeywords(slots) && i < |slots|
    ensures SlotOf(slots, slots[i].keyword) == Some(i)
    ensures LastRecord(slots, slots[i].keyword) == Some(slots[i])
  {
    var last := LastRecord(slots, slots[i].keyword).value;
    assert exists j :: 0 <= j < |slots| && slots[j] == last;
  }

  /** The slots answer every lookup as the whole history of updates does, tombstones included. */
  lemma {:induction false} SlotsAnswerAsHistory(history: seq<PaxRecord>)
    ensures DistinctKeywords(Slots(history))
    ensures forall key :: LastRecord(Slots(history), key) == LastRecord(history, key)
    decreases |history|
  {
    if history != [] {
      var rest, update := history[..|history| - 1], history[|history| - 1];
      SlotsAnswerAsHistory(rest);
      var before, after := Slots(rest), Slots(history);
      assert DistinctKeywords(after);
      forall key ensures LastRecord(after, key) == LastRecord(history, key) {
        if key == update.keyword {
          var i := if SlotOf(before, key).Some? then SlotOf(before, key).value else |before|;
          OnlySlot(after, i);
        } else {
          SameLookup(before, after, key);
        }
      }
    }
  }

  lemma SameLookup(before: seq<PaxRecord>, after: seq<PaxRecord>, key: PaxKeyword)
    requires DistinctKeywords(before) && DistinctKeywords(after) && |before| <= |after|
    requires forall i :: 0 <= i < |before| && (before[i].keyword == key || after[i].keyword == key) ==> before[i] == after[i]
    requires forall i :: |before| <= i < |after| ==> after[i].keyword != key
    ensures LastRecord(after, key) == LastRecord(before, key)
  {
    if LastRecord(before, key).Some? {
      var i :| 0 <= i < |before| && before[i].keyword == key;
      OnlySlot(before, i);
      OnlySlot(after, i);
    }
  }

  /** The global records in force: one slot per keyword, indexed. `history` is every update ever applied. */
  class GlobalPaxRecords {
    var records: seq<PaxRecord>
    var indices: map<PaxKeyword, nat>
    ghost var history: seq<PaxRecord>

    /** The index finds every slot, and the slots are those of the whole history. */
    ghost predicate Valid()
      reads this
    {
      Indexed(records, indices) && records == Slots(history)
    }

    constructor ()
      ensures Valid() && history == []
    {
      records, indices, history := [], map[], [];
    }

    /** Applies one global header's records in order. */
    method Apply(updates: seq<PaxRecord>)
      requires Valid()
      modifies this
      ensures Valid() && history == old(history) + updates
    {
      for i := 0 to |updates|
        invariant Valid() && history == old(history) + updates[..i]
      {
        ApplyOne(updates[i]);
        assert updates[..i + 1] == updates[..i] + [updates[i]];
      }
      assert updates[..|updates|] == updates;
    }

    /** The latest record takes its keyword's slot, or a new one. */
    method ApplyOne(update: PaxRecord)
      requires Valid()
      modifies this
      ensures Valid() && history == old(history) + [update]
    {
      hide Slots, SlotOf, Indexed;
      SlotFound(records, indices, update.keyword);
      SlotsMore(history, update);
      IndexMoved(records, indices, update);
      if update.keyword in indices {
        records := records[indices[update.keyword] := update];
      } else {
        indices := indices[update.keyword := |records|];
        records := records + [update];
      }
      history := history + [update];
    }

    /** Looking a keyword up through the index finds the last update in the whole history. */
    function Get(key: PaxKeyword): (r: Option<PaxRecord>)
      requires Valid()
      reads this
      ensures r == LastRecord(history, key)
    {
      IndexAnswers(records, indices, history, key);
      if key in indices then Some(records[indices[key]]) else None
    }

    function ActiveCharset(): (charset: HdrCharset)
      requires Valid()
      reads this
      ensures charset == GlobalCharset(history)
    {
      match Get(HdrCharsetKey)
      case Some(PaxRecord(_, Value(Charset(charset)))) => charset
      case _ => Utf8
    }
  }

  ghost predicate Indexed(slots: seq<PaxRecord>, indices: map<PaxKeyword, nat>)
  {
    && (forall key :: key in indices ==> indices[key] < |slots| && slots[indices[key]].keyword == key)
    && (forall i :: 0 <= i < |slots| ==> slots[i].keyword in indices && indices[slots[i].keyword] == i)
  }

  lemma SlotsMore(history: seq<PaxRecord>, update: PaxRecord)
    ensures Slots(history + [update]) ==
            match SlotOf(Slots(history), update.keyword)
            case Some(i) => Slots(history)[i := update]
            case None => Slots(history) + [update]
  {
    hide SlotOf;
    assert (history + [update])[..|history|] == history;
  }

  /** The index stays right when a slot is replaced or added. */
  lemma IndexMoved(slots: seq<PaxRecord>, indices: map<PaxKeyword, nat>, update: PaxRecord)
    requires Indexed(slots, indices)
    ensures if update.keyword in indices then
              indices[update.keyword] < |slots| && Indexed(slots[indices[update.keyword] := update], indices)
            else Indexed(slots + [update], indices[update.keyword := |slots|])
  {
  }

  lemma IndexAnswers(slots: seq<PaxRecord>, indices: map<PaxKeyword, nat>, history: seq<PaxRecord>, key: PaxKeyword)
    requires Indexed(slots, indices) && slots == Slots(history)
    ensures LastRecord(history, key) == if key in indices then Some(slots[indices[key]]) else None
  {
    SlotsAnswerAsHistory(history);
    if key in indices {
      OnlySlot(slots, indices[key]);
    }
  }

  lemma SlotFound(slots: seq<PaxRecord>, indices: map<PaxKeyword, nat>, key: PaxKeyword)
    requires Indexed(slots, indices)
    ensures SlotOf(slots, key) == if key in indices then Some(indices[key]) else None
  {
  }
}
