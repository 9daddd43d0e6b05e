/** What a typed pax record says of the bytes it was read from: which keyword, and which value. */
module Values {
  import opened Octets
  import opened Numbers
  import opened PaxRecords
  import opened Pax
  import opened Write
  import opened RoundTrip
  import opened Decode

  datatype ValueKind = IntegerValue | SecondsValue | TextValue | NameValue | CharsetValue | BytesValue

  /** What kind of value each keyword takes. */
  function KindOfValue(key: PaxKeyword): ValueKind
  {
    match key
    case GidKey => IntegerValue
    case UidKey => IntegerValue
    case SizeKey => IntegerValue
    case AtimeKey => SecondsValue
    case CtimeKey => SecondsValue
    case MtimeKey => SecondsValue
    case CharsetKey => TextValue
    case CommentKey => TextValue
    case RealtimeKey(_) => TextValue
    case SecurityKey(_) => TextValue
    case GnameKey => NameValue
    case UnameKey => NameValue
    case LinkPathKey => NameValue
    case PathKey => NameValue
    case HdrCharsetKey => CharsetValue
    case VendorKey(_, _) => BytesValue
  }

  predicate SpellsInteger(text: seq<Byte>, n: nat)
  {
    text != [] && AllDigits(text) && n == Positional(text, 10, 48)
  }

  /** Whole seconds, or whole seconds, a dot, and a fraction that does not count. */
  predicate SpellsSeconds(text: seq<Byte>, n: nat)
  {
    SpellsInteger(text, n) || exists k :: 0 <= k < |text| && SplitsAt(text, k) && SpellsInteger(text[..k], n)
  }

  predicate SplitsAt(text: seq<Byte>, k: nat)
    requires k < |text|
  {
    text[k] == DOT && text[k + 1..] != [] && AllDigits(text[k + 1..])
  }

  /** `ISO-IR 10646 2000 UTF-8`, `BINARY`. */
  function CharsetName(charset: HdrCharset): seq<Byte>
  {
    match charset
    case Utf8 => [73, 83, 79, 45, 73, 82, 32, 49, 48, 54, 52, 54, 32, 50, 48, 48, 48, 32, 85, 84, 70, 45, 56]
    case Binary => [66, 73, 78, 65, 82, 89]
  }

  predicate Means(kind: ValueKind, charset: HdrCharset, text: seq<Byte>, content: PaxContent)
  {
    match kind
    case IntegerValue => content.Number? && SpellsInteger(text, content.n)
    case SecondsValue => content.Number? && SpellsSeconds(text, content.n)
    case TextValue => content.Plain? && content.text == text
    case NameValue => if charset == Binary then content == BinaryString(text) else content.Utf8String? && content.text == text
    case CharsetValue =>
      content.Charset? && text == CharsetName(content.charset)
    case BytesValue => content == Opaque(text)
  }

  /** An empty value deletes; any other means its content. */
  predicate ValueMeans(kind: ValueKind, charset: HdrCharset, text: seq<Byte>, value: PaxValue)
  {
    match value
    case Deleted => text == []
    case Value(content) => text != [] && Means(kind, charset, text, content)
  }

  function ParseValue(kind: ValueKind, keyword: seq<Byte>, charset: HdrCharset, text: seq<Byte>): Result<PaxValue, PaxError>
  {
    match kind
    case IntegerValue => ParseInteger(keyword, text)
    case SecondsValue => ParseTime(keyword, text)
    case TextValue => ParseText(text)
    case NameValue => ParseString(text, charset)
    case CharsetValue => ParseHdrCharset(text)
    case BytesValue => Ok(if text == [] then Deleted else Value(Opaque(text)))
  }

  // ------------------------------------------------------------------ values

  lemma IntegerMeans(text: seq<Byte>, n: U64)
    ensures ParseDecimal(text) == Some(n) <==> SpellsInteger(text, n)
    ensures SpellsInteger(text, n) ==> ValidUtf8(text)
  {
    hide ValidUtf8, DecimalValue, Positional;
    if AllDigits(text) {
      DecimalIsPositional(text);
      AsciiIsUtf8(text);
    }
  }

  lemma SecondsMean(keyword: seq<Byte>, text: seq<Byte>, n: U64)
    ensures ParseTime(keyword, text) == Ok(Value(Number(n))) <==> SpellsSeconds(text, n)
  {
    hide ValidUtf8, ParseDecimal, Positional;
    var dot := Find(text, DOT);
    IntegerMeans(text, n);
    if dot.Some? {
      IntegerMeans(text[..dot.value], n);
      assert text[..dot.value + 1] == text[..dot.value] + [DOT];
      if SplitsAt(text, dot.value) && SpellsInteger(text[..dot.value], n) { SecondsAreAscii(text, dot.value); }
    }
    forall k | 0 <= k < |text| && SplitsAt(text, k) && AllDigits(text[..k]) ensures dot == Some(k) {
      OnlyDot(text, k);
    }
  }

  /** Where a number splits at a dot, that is the only dot. */
  lemma OnlyDot(text: seq<Byte>, k: nat)
    requires k < |text| && SplitsAt(text, k) && AllDigits(text[..k])
    ensures Find(text, DOT) == Some(k)
  {
    assert DOT !in text[..k];
    FindAfter(text[..k], DOT, text[k + 1..]);
    assert text == text[..k] + [DOT] + text[k + 1..];
  }

  lemma SecondsAreAscii(text: seq<Byte>, k: nat)
    requires k < |text| && SplitsAt(text, k) && AllDigits(text[..k])
    ensures ValidUtf8(text)
  {
    hide ValidUtf8;
    forall i | 0 <= i < |text| ensures text[i] < 0x80 {
      if i < k { assert text[i] == text[..k][i]; } else if i > k { assert text[i] == text[k + 1..][i - k - 1]; }
    }
    AsciiIsUtf8(text);
  }

  lemma CharsetTexts()
    ensures CHARSET_UTF8 == CharsetName(Utf8) && CHARSET_BINARY == CharsetName(Binary)
    ensures ValidUtf8(CHARSET_UTF8) && ValidUtf8(CHARSET_BINARY)
    ensures |CHARSET_UTF8| != |CHARSET_BINARY| && CHARSET_UTF8 != [] && CHARSET_BINARY != []
  {
    hide ValidUtf8;
    AsciiIsUtf8(CHARSET_UTF8);
    AsciiIsUtf8(CHARSET_BINARY);
  }

  /** The two texts that name a charset, and the two charsets they name. */
  lemma CharsetMeans(text: seq<Byte>, value: PaxValue)
    ensures ParseHdrCharset(text) == Ok(value) <==> ValueMeans(CharsetValue, Utf8, text, value)
  {
    hide ValidUtf8, CharsetName, CHARSET_UTF8, CHARSET_BINARY;
    CharsetTexts();
    EmptyIsUtf8();
    if value.Value? && value.content.Charset? { assert value.content.charset == Utf8 || value.content.charset == Binary; }
  }

  lemma EmptyIsUtf8()
    ensures ValidUtf8([])
  {
  }

  /** Every kind of value is read exactly as what it means. */
  lemma ValueReads(kind: ValueKind, keyword: seq<Byte>, charset: HdrCharset, text: seq<Byte>, value: PaxValue)
    ensures ParseValue(kind, keyword, charset, text) == Ok(value) <==> ValueMeans(kind, charset, text, value)
  {
    hide ValidUtf8, CharsetName, SpellsInteger, SpellsSeconds, ParseDecimal, ParseTime, ParseHdrCharset;
    EmptyIsUtf8();
    NumberReads(keyword, text, value);
    CharsetMeans(text, value);
  }

  lemma NumberReads(keyword: seq<Byte>, text: seq<Byte>, value: PaxValue)
    ensures ParseInteger(keyword, text) == Ok(value) <==> ValueMeans(IntegerValue, Utf8, text, value)
    ensures ParseTime(keyword, text) == Ok(value) <==> ValueMeans(SecondsValue, Utf8, text, value)
  {
    hide ValidUtf8, SpellsInteger, SpellsSeconds, ParseDecimal, ParseTime;
    EmptyIsUtf8();
    TimeResults(keyword, text);
    if value.Value? && value.content.Number? {
      IntegerMeans(text, value.content.n);
      SecondsMean(keyword, text, value.content.n);
    }
    if ParseDecimal(text).Some? { IntegerMeans(text, ParseDecimal(text).value); }
  }

  lemma TimeResults(keyword: seq<Byte>, text: seq<Byte>)
    ensures ParseTime(keyword, text) == Ok(Deleted) <==> text == []
    ensures ParseTime(keyword, text).Ok? && text != [] ==>
              ParseTime(keyword, text).value.Value? && ParseTime(keyword, text).value.content.Number?
  {
    hide ValidUtf8, ParseDecimal;
    EmptyIsUtf8();
  }

  // ----------------------------------------------------------------- keywords

  /** The keyword names something: a namespaced one has both its parts. */
  predicate Named(key: PaxKeyword)
  {
    match key
    case RealtimeKey(name) => name != []
    case SecurityKey(name) => name != []
    case VendorKey(vendor, name) => vendor != [] && name != []
    case _ => true
  }

  /** A keyword's text is read as that keyword, with the kind of value it takes. */
  lemma KeywordDecides(key: PaxKeyword, text: seq<Byte>, charset: HdrCharset)
    requires Named(key) && ReadsBack(key)
    ensures ParseRecord(RawRecord(KeywordText(key), text), charset) ==
            Keyed(key, ParseValue(KindOfValue(key), KeywordText(key), charset, text))
  {
    hide ValidUtf8, ParseText, ParseTime, ParseInteger, ParseString, ParseHdrCharset, ParseNamespaced, Find, ReadsBack, Ascii;
    if key.RealtimeKey? || key.SecurityKey? || key.VendorKey? {
      NamespaceDecides(key, text, charset);
    }
  }

  lemma NamespaceDecides(key: PaxKeyword, text: seq<Byte>, charset: HdrCharset)
    requires Named(key) && ReadsBack(key) && (key.RealtimeKey? || key.SecurityKey? || key.VendorKey?)
    ensures ParseRecord(RawRecord(KeywordText(key), text), charset) ==
            Keyed(key, ParseValue(KindOfValue(key), KeywordText(key), charset, text))
  {
    hide ValidUtf8, ParseRecord, ParseNamespaced, ParseText, KeywordText, ReadsBack, Named, KW_REALTIME, KW_SECURITY;
    var namespace, name := NamespaceParts(key);
    DottedIsNamespaced(KeywordText(key), text, charset);
    NamespaceValue(KeywordText(key), namespace, name, text);
  }

  /** The two parts of a namespaced keyword, and which of the three it is. */
  lemma NamespaceParts(key: PaxKeyword) returns (namespace: Text, name: Text)
    requires Named(key) && ReadsBack(key) && (key.RealtimeKey? || key.SecurityKey? || key.VendorKey?)
    ensures KeywordText(key) == namespace + ([DOT] + name) && DOT in KeywordText(key)
    ensures namespace != [] && name != [] && DOT !in namespace
    ensures key.RealtimeKey? ==> namespace == KW_REALTIME && key == RealtimeKey(name)
    ensures key.SecurityKey? ==> namespace == KW_SECURITY && namespace != KW_REALTIME && key == SecurityKey(name)
    ensures key.VendorKey? ==> namespace != KW_SECURITY && namespace != KW_REALTIME && key == VendorKey(namespace, name)
  {
    hide ValidUtf8;
    namespace, name := Components(key).0, Components(key).1.value;
    assert KeywordText(key)[|namespace|] == DOT;
  }

  lemma NamespaceValue(k: Text, namespace: Text, name: Text, text: seq<Byte>)
    requires k == namespace + ([DOT] + name) && namespace != [] && name != [] && DOT !in namespace
    ensures ParseNamespaced(k, text) ==
            if namespace == KW_REALTIME then Keyed(RealtimeKey(name), ParseText(text))
            else if namespace == KW_SECURITY then Keyed(SecurityKey(name), ParseText(text))
            else Ok(PaxRecord(VendorKey(namespace, name), if text == [] then Deleted else Value(Opaque(text))))
  {
    hide ValidUtf8, ParseText, Find, KW_REALTIME, KW_SECURITY;
    NamespaceSplit(namespace, name);
  }

  /** Whatever is read was written under its keyword's own text. */
  lemma KeywordIsOwn(raw: RawRecord, charset: HdrCharset)
    requires ParseRecord(raw, charset).Ok?
    ensures var key := ParseRecord(raw, charset).value.keyword; Named(key) && ReadsBack(key) && KeywordText(key) == raw.keyword
  {
    hide ValidUtf8, ParseText, ParseTime, ParseInteger, ParseString, ParseHdrCharset, ParseNamespaced, KeywordText, ReadsBack;
    FixedTexts();
    NamespacedIsOwn(raw.keyword, raw.value);
  }

  lemma FixedTexts()
    ensures KeywordText(AtimeKey) == KW_ATIME && KeywordText(CharsetKey) == KW_CHARSET && KeywordText(CommentKey) == KW_COMMENT
    ensures KeywordText(CtimeKey) == KW_CTIME && KeywordText(GidKey) == KW_GID && KeywordText(GnameKey) == KW_GNAME
    ensures KeywordText(HdrCharsetKey) == KW_HDRCHARSET && KeywordText(LinkPathKey) == KW_LINKPATH
    ensures KeywordText(MtimeKey) == KW_MTIME && KeywordText(PathKey) == KW_PATH && KeywordText(SizeKey) == KW_SIZE
    ensures KeywordText(UidKey) == KW_UID && KeywordText(UnameKey) == KW_UNAME
    ensures forall key: PaxKeyword :: !key.VendorKey? ==> ReadsBack(key)
  {
    hide ValidUtf8;
  }

  lemma NamespacedTexts(namespace: Text, name: Text)
    ensures KeywordText(VendorKey(namespace, name)) == namespace + ([DOT] + name)
    ensures KeywordText(RealtimeKey(name)) == KW_REALTIME + ([DOT] + name)
    ensures KeywordText(SecurityKey(name)) == KW_SECURITY + ([DOT] + name)
    ensures ReadsBack(VendorKey(namespace, name)) <==> DOT !in namespace && namespace != KW_REALTIME && namespace != KW_SECURITY
  {
    hide ValidUtf8, KW_REALTIME, KW_SECURITY;
  }

  lemma NamespacedIsOwn(k: Text, text: seq<Byte>)
    ensures ParseNamespaced(k, text).Ok? ==>
              var key := ParseNamespaced(k, text).value.keyword; Named(key) && ReadsBack(key) && KeywordText(key) == k
  {
    hide ValidUtf8, ParseText, KeywordText, ReadsBack, KW_REALTIME, KW_SECURITY;
    if ParseNamespaced(k, text).Ok? {
      var dot := Find(k, DOT).value;
      Utf8Split(k, dot);
      NamespacedTexts(k[..dot], k[dot + 1..]);
      assert k == k[..dot] + ([DOT] + k[dot + 1..]);
      FixedTexts();
    }
  }

  /**
   * A record is read as just what it says: under the keyword whose text it carries, with a value of that keyword's
   * kind. Nothing else is accepted.
   */
  lemma RecordMeans(raw: RawRecord, charset: HdrCharset, record: PaxRecord)
    ensures ParseRecord(raw, charset) == Ok(record) <==>
            && Named(record.keyword) && ReadsBack(record.keyword) && KeywordText(record.keyword) == raw.keyword
            && ValueMeans(KindOfValue(record.keyword), charset, raw.value, record.value)
  {
    hide ValidUtf8, ParseRecord, ParseValue, ValueMeans, KeywordText, ReadsBack, Named;
    var key := record.keyword;
    if ParseRecord(raw, charset).Ok? { KeywordIsOwn(raw, charset); }
    if Named(key) && ReadsBack(key) && KeywordText(key) == raw.keyword {
      KeywordDecides(key, raw.value, charset);
      ValueReads(KindOfValue(key), raw.keyword, charset, raw.value, record.value);
    }
  }

  // ----------------------------------------------------------------- payloads

  /** The charset a list of records leaves in force: its last `hdrcharset` record's, UTF-8 where that was deleted. */
  ghost predicate Leaves(records: seq<PaxRecord>, inherited: HdrCharset, charset: HdrCharset)
  {
    && (forall i: nat :: LastFor(records, HdrCharsetKey, i) ==> NamedCharset(records[i].value, charset))
    && ((forall i :: 0 <= i < |records| ==> records[i].keyword != HdrCharsetKey) ==> charset == inherited)
  }

  predicate NamedCharset(value: PaxValue, charset: HdrCharset)
  {
    value == Value(Charset(charset)) || (value == Deleted && charset == Utf8)
  }

  /** Every raw record says what the typed one is, in this charset. */
  predicate AllMean(raw: seq<RawRecord>, charset: HdrCharset, records: seq<PaxRecord>)
  {
    |raw| == |records| && forall i :: 0 <= i < |raw| ==> Says(raw[i], charset, records[i])
  }

  predicate Says(raw: RawRecord, charset: HdrCharset, record: PaxRecord)
  {
    && Named(record.keyword) && ReadsBack(record.keyword) && KeywordText(record.keyword) == raw.keyword
    && ValueMeans(KindOfValue(record.keyword), charset, raw.value, record.value)
  }

  lemma {:induction false} EachMeans(raw: seq<RawRecord>, charset: HdrCharset, records: seq<PaxRecord>)
    ensures ParseEach(raw, charset) == Ok(records) <==> AllMean(raw, charset, records)
    decreases |raw|
  {
    hide ParseRecord, Says;
    if raw != [] && records != [] {
      SaysIsParsed(raw[0], charset, records[0]);
      EachMeans(raw[1..], charset, records[1..]);
      assert records == [records[0]] + records[1..];
      assert forall i :: 0 < i < |raw| ==> raw[i] == raw[1..][i - 1];
      assert forall i :: 0 < i < |records| ==> records[i] == records[1..][i - 1];
    }
  }

  lemma SaysIsParsed(raw: RawRecord, charset: HdrCharset, record: PaxRecord)
    ensures ParseRecord(raw, charset) == Ok(record) <==> Says(raw, charset, record)
  {
    hide ParseRecord, ValueMeans, KeywordText, ReadsBack, Named;
    RecordMeans(raw, charset, record);
  }

  /** Records that can be read have a charset. */
  lemma {:induction false} CharsetFound(raw: seq<RawRecord>, inherited: HdrCharset, charset: HdrCharset)
    requires ParseEach(raw, charset).Ok?
    ensures ResolveHdrCharset(raw, inherited).Ok?
    decreases |raw|
  {
    hide ParseRecord, ParseHdrCharset;
    if raw != [] {
      KeywordOfParsed(raw[0], charset);
      var next := if raw[0].keyword != KW_HDRCHARSET then inherited
                  else match ParseHdrCharset(raw[0].value).value case Deleted => Utf8 case Value(content) => content.charset;
      CharsetFound(raw[1..], next, charset);
    }
  }

  /** What the records themselves say about the charset decides it, wherever among them it stands. */
  lemma CharsetLeft(records: seq<PaxRecord>, inherited: HdrCharset, charset: HdrCharset)
    requires forall i :: 0 <= i < |records| && records[i].keyword == HdrCharsetKey ==>
               records[i].value.Deleted? || records[i].value.content.Charset?
    ensures (if LastRecord(records, HdrCharsetKey).Some? then GlobalCharset(records) else inherited) == charset <==>
            Leaves(records, inherited, charset)
  {
    hide LastRecord;
    forall i: nat | LastFor(records, HdrCharsetKey, i) ensures LastRecord(records, HdrCharsetKey) == Some(records[i]) {
      LastRecordAt(records, HdrCharsetKey, i);
    }
    LastIsSome(records, HdrCharsetKey);
  }

  lemma {:induction false} LastIsSome(records: seq<PaxRecord>, key: PaxKeyword)
    ensures LastRecord(records, key).Some? ==> exists i: nat :: LastFor(records, key, i) && records[i] == LastRecord(records, key).value
    decreases |records|
  {
    if records != [] {
      var init, last := records[..|records| - 1], records[|records| - 1];
      if last.keyword == key {
        assert LastFor(records, key, |records| - 1);
      } else if LastRecord(records, key).Some? {
        LastIsSome(init, key);
        var i: nat :| LastFor(init, key, i) && init[i] == LastRecord(init, key).value;
        StillLast(records, key, i);
      }
    }
  }

  lemma StillLast(records: seq<PaxRecord>, key: PaxKeyword, i: nat)
    requires records != [] && records[|records| - 1].keyword != key && LastFor(records[..|records| - 1], key, i)
    ensures LastFor(records, key, i) && records[i] == records[..|records| - 1][i]
  {
    var init := records[..|records| - 1];
    assert forall j :: 0 <= j < |init| ==> records[j] == init[j];
  }

  /** A typed charset record holds a charset. */
  lemma CharsetValues(raw: seq<RawRecord>, charset: HdrCharset, records: seq<PaxRecord>)
    requires AllMean(raw, charset, records)
    ensures forall i :: 0 <= i < |records| && records[i].keyword == HdrCharsetKey ==>
              records[i].value.Deleted? || records[i].value.content.Charset?
  {
    hide KeywordText, ReadsBack, Named, CharsetName;
    assert forall i :: 0 <= i < |records| ==> Says(raw[i], charset, records[i]);
  }

  /**
   * A payload reads as these records if and only if it is not empty, is partitioned into raw records, and each says
   * what the typed one is, in the charset that the records' own last `hdrcharset` leaves, or else the inherited one.
   */
  lemma PayloadMeans(payload: seq<Byte>, inherited: HdrCharset, records: seq<PaxRecord>)
    ensures ParsePayload(payload, inherited) == Ok(records) <==>
            payload != [] && exists raw, charset :: Partitioned(payload, 0, raw) && AllMean(raw, charset, records)
                                                    && Leaves(records, inherited, charset)
  {
    hide SplitRecords, ParseEach, ResolveHdrCharset, Partitioned, AllMean, Leaves, GlobalCharset, LastRecord;
    if ParsePayload(payload, inherited) == Ok(records) {
      var raw := SplitRecords(payload, 0).value;
      var charset := ResolveHdrCharset(raw, inherited).value;
      PayloadParts(payload, inherited, raw, charset, records);
    }
    if raw, charset :| payload != [] && Partitioned(payload, 0, raw) && AllMean(raw, charset, records) && Leaves(records, inherited, charset) {
      PayloadParts(payload, inherited, raw, charset, records);
    }
  }

  lemma PayloadParts(payload: seq<Byte>, inherited: HdrCharset, raw: seq<RawRecord>, charset: HdrCharset, records: seq<PaxRecord>)
    ensures SplitRecords(payload, 0) == Ok(raw) <==> Partitioned(payload, 0, raw)
    ensures ParseEach(raw, charset) == Ok(records) <==> AllMean(raw, charset, records)
    ensures AllMean(raw, charset, records) ==>
              (ResolveHdrCharset(raw, inherited) == Ok(charset) <==> Leaves(records, inherited, charset))
  {
    hide SplitRecords, ParseEach, ResolveHdrCharset, Partitioned, AllMean, Leaves, GlobalCharset, LastRecord;
    SplitRecordsIffPartitioned(payload, 0, raw);
    EachMeans(raw, charset, records);
    if AllMean(raw, charset, records) {
      CharsetFound(raw, inherited, charset);
      CharsetIsLastWins(raw, inherited, charset, records);
      CharsetValues(raw, charset, records);
      CharsetLeft(records, inherited, charset);
    }
  }
}
