/** The pax extended-header payload: self-describing `length keyword=value` records. */
module PaxRecords {
  import opened Octets
  import opened Numbers

  const EQUALS: Byte := 61
  const NEWLINE: Byte := 10

  /** One record before its value is interpreted. */
  datatype RawRecord = RawRecord(keyword: Text, value: seq<Byte>)

  datatype RecordFault =
    | NoRecords
    | MissingLengthSeparator
    | EmptyLength
    | LengthNotDecimal
    | LengthExceedsPayload
    | NotNewlineTerminated
    | MissingKeywordSeparator
    | EmptyKeyword

  datatype PaxError =
    | InvalidRecords(reason: RecordFault)
    | InvalidUtf8
    | InvalidKeyword(keyword: seq<Byte>)
    | InvalidInteger(keyword: seq<Byte>, value: seq<Byte>)
    | InvalidTime(keyword: seq<Byte>, value: seq<Byte>)
    | UnsupportedCharset(value: seq<Byte>)
    | ArithmeticOverflow

  /** The record that starts at `cursor`, and where it ends. */
  function NextRecord(payload: seq<Byte>, cursor: nat): (r: Result<(RawRecord, nat), PaxError>)
    requires cursor < |payload|
    ensures r.Ok? ==> cursor < r.value.1 <= |payload|
  {
    match Find(payload[cursor..], SPACE)
    case None => Err(InvalidRecords(MissingLengthSeparator))
    case Some(digits) =>
      if digits == 0 then Err(InvalidRecords(EmptyLength))
      else
        match ParseDecimal(payload[cursor..cursor + digits])
        case None => Err(InvalidRecords(LengthNotDecimal))
        case Some(len) =>
          if cursor + len >= U64_LIMIT then Err(ArithmeticOverflow)
          else if cursor + len > |payload| then Err(InvalidRecords(LengthExceedsPayload))
          else
            var record := payload[cursor..cursor + len];
            LengthPrefix(payload, cursor, digits, len);
            match RecordContent(record, digits)
            case Err(e) => Err(e)
            case Ok(raw) => Ok((raw, cursor + len))
  }

  lemma LengthPrefix(payload: seq<Byte>, cursor: nat, digits: nat, len: nat)
    requires cursor + len <= |payload| && cursor + digits < |payload|
    requires AllDigits(payload[cursor..cursor + digits]) && payload[cursor + digits] == SPACE
    ensures StartsWithLength(payload[cursor..cursor + len], digits)
  {
    var text, record := payload[cursor..cursor + digits], payload[cursor..cursor + len];
    assert forall i :: 0 <= i < digits && i < |record| ==> record[i] == text[i];
  }

  /** As much of `record` as there is starts with digits and then one space. */
  predicate StartsWithLength(record: seq<Byte>, digits: nat)
  {
    && (forall i :: 0 <= i < digits && i < |record| ==> IsDigit(record[i]))
    && (digits < |record| ==> record[digits] == SPACE)
  }

  /** The keyword and value of one delimited record. */
  function RecordContent(record: seq<Byte>, digits: nat): (r: Result<RawRecord, PaxError>)
    requires StartsWithLength(record, digits)
    ensures r.Ok? ==> digits < |record|
  {
    if record == [] || record[|record| - 1] != NEWLINE then Err(InvalidRecords(NotNewlineTerminated))
    else
      var content := record[digits + 1..|record| - 1];
      match Find(content, EQUALS)
      case None => Err(InvalidRecords(MissingKeywordSeparator))
      case Some(equals) =>
        if equals == 0 then Err(InvalidRecords(EmptyKeyword))
        else if !ValidUtf8(content[..equals]) then Err(InvalidUtf8)
        else Ok(RawRecord(content[..equals], content[equals + 1..]))
  }

  /** All records from `cursor` to the end of the payload. */
  function SplitRecords(payload: seq<Byte>, cursor: nat): Result<seq<RawRecord>, PaxError>
    requires cursor <= |payload|
    decreases |payload| - cursor
  {
    if cursor == |payload| then Ok([])
    else
      match NextRecord(payload, cursor)
      case Err(e) => Err(e)
      case Ok((record, end)) =>
        match SplitRecords(payload, end)
        case Err(e) => Err(e)
        case Ok(rest) => Ok([record] + rest)
  }

  // ------------------------------------------------ what the splitter accepts

  /** `keyword=value`. */
  function Content(record: RawRecord): seq<Byte>
  {
    record.keyword + [EQUALS] + record.value
  }

  /** A record: its length, a space, its content, a newline. */
  function Line(length: seq<Byte>, content: seq<Byte>): seq<Byte>
  {
    length + [SPACE] + content + [NEWLINE]
  }

  lemma LineParts(length: seq<Byte>, content: seq<Byte>)
    ensures var line := Line(length, content);
            && |line| == |length| + |content| + 2
            && line[..|length|] == length && line[|length|] == SPACE
            && line[|length| + 1..|line| - 1] == content && line[|line| - 1] == NEWLINE
  {
  }

  lemma LineOfParts(line: seq<Byte>, digits: nat)
    requires digits + 2 <= |line| && line[digits] == SPACE && line[|line| - 1] == NEWLINE
    ensures line == Line(line[..digits], line[digits + 1..|line| - 1])
  {
  }

  /** `record` stands at `cursor`, its declared length written with `digits` decimal digits. */
  ghost predicate RecordAt(payload: seq<Byte>, cursor: nat, digits: nat, record: RawRecord)
  {
    && 0 < digits && cursor + digits <= |payload|
    && var text := payload[cursor..cursor + digits];
    && AllDigits(text)
    && var len := DecimalValue(text);
    && len < U64_LIMIT && cursor + len < U64_LIMIT && cursor + len <= |payload|
    && payload[cursor..cursor + len] == Line(text, Content(record))
    && Printable(record)
  }

  /** The payload from `cursor` on is exactly these records, end to end. */
  ghost predicate Partitioned(payload: seq<Byte>, cursor: nat, records: seq<RawRecord>)
    requires cursor <= |payload|
    decreases |records|
  {
    if records == [] then cursor == |payload|
    else exists digits: nat :: RecordAt(payload, cursor, digits, records[0]) && PartitionedAfter(payload, cursor, digits, records)
  }

  ghost predicate PartitionedAfter(payload: seq<Byte>, cursor: nat, digits: nat, records: seq<RawRecord>)
    requires cursor <= |payload| && records != [] && RecordAt(payload, cursor, digits, records[0])
    decreases |records|, 0
  {
    Partitioned(payload, cursor + DecimalValue(payload[cursor..cursor + digits]), records[1..])
  }

  predicate Printable(record: RawRecord)
  {
    record.keyword != [] && EQUALS !in record.keyword
  }

  /** Content splits at its first `=`, and only one printable record has that content. */
  lemma ContentSplit(content: seq<Byte>, raw: RawRecord)
    requires Printable(raw)
    ensures content == Content(raw) <==>
            Find(content, EQUALS) == Some(|raw.keyword|)
            && content[..|raw.keyword|] == raw.keyword && content[|raw.keyword| + 1..] == raw.value
  {
    if content == Content(raw) {
      FindAfter(raw.keyword, EQUALS, raw.value);
    } else if Find(content, EQUALS) == Some(|raw.keyword|) {
      var k := |raw.keyword|;
      assert content == content[..k] + [EQUALS] + content[k + 1..];
    }
  }

  /** What one delimited record must look like to be accepted as `raw`. */
  lemma RecordContentIff(record: seq<Byte>, digits: nat, raw: RawRecord)
    requires StartsWithLength(record, digits) && digits < |record|
    ensures RecordContent(record, digits) == Ok(raw) <==>
            Printable(raw) && record == Line(record[..digits], Content(raw))
  {
    if Printable(raw) {
      if record == Line(record[..digits], Content(raw)) {
        LineParts(record[..digits], Content(raw));
        ContentSplit(Content(raw), raw);
      }
    }
    if RecordContent(record, digits) == Ok(raw) {
      var content := record[digits + 1..|record| - 1];
      ContentSplit(content, raw);
      LineOfParts(record, digits);
    }
  }

  /** A record the parser returns stands in the payload, byte for byte. */
  lemma NextRecordSound(payload: seq<Byte>, cursor: nat) returns (digits: nat)
    requires cursor < |payload| && NextRecord(payload, cursor).Ok?
    ensures RecordAt(payload, cursor, digits, NextRecord(payload, cursor).value.0)
    ensures NextRecord(payload, cursor).value.1 == cursor + DecimalValue(payload[cursor..cursor + digits])
  {
    hide RecordContent, Line, Content, DecimalValue;
    digits := Find(payload[cursor..], SPACE).value;
    var text := payload[cursor..cursor + digits];
    var record := payload[cursor..cursor + DecimalValue(text)];
    LengthPrefix(payload, cursor, digits, DecimalValue(text));
    RecordContentIff(record, digits, NextRecord(payload, cursor).value.0);
    assert record[..digits] == text;
  }

  /** A record that stands in the payload is what the parser returns. */
  lemma NextRecordComplete(payload: seq<Byte>, cursor: nat, digits: nat, record: RawRecord)
    requires cursor < |payload| && RecordAt(payload, cursor, digits, record)
    ensures NextRecord(payload, cursor) == Ok((record, cursor + DecimalValue(payload[cursor..cursor + digits])))
  {
    hide RecordContent, Line, Content, DecimalValue, StartsWithLength, Find;
    var text := payload[cursor..cursor + digits];
    var window := payload[cursor..cursor + DecimalValue(text)];
    LineParts(text, Content(record));
    assert payload[cursor + digits] == window[digits];
    FirstSpace(payload, cursor, digits);
    LengthPrefix(payload, cursor, digits, DecimalValue(text));
    RecordContentIff(window, digits, record);
  }

  lemma FirstSpace(payload: seq<Byte>, cursor: nat, digits: nat)
    requires cursor + digits < |payload|
    requires AllDigits(payload[cursor..cursor + digits]) && payload[cursor + digits] == SPACE
    ensures Find(payload[cursor..], SPACE) == Some(digits)
  {
    var text := payload[cursor..cursor + digits];
    FindAfter(text, SPACE, payload[cursor + digits + 1..]);
    assert payload[cursor..] == text + [SPACE] + payload[cursor + digits + 1..];
  }

  /** The splitter accepts a payload with these records exactly when the payload is partitioned into them. */
  lemma {:induction false} SplitRecordsIffPartitioned(payload: seq<Byte>, cursor: nat, records: seq<RawRecord>)
    requires cursor <= |payload|
    ensures SplitRecords(payload, cursor) == Ok(records) <==> Partitioned(payload, cursor, records)
    decreases |payload| - cursor
  {
    hide NextRecord, RecordContent, Line, Content, DecimalValue;
    if cursor < |payload| {
      if SplitRecords(payload, cursor) == Ok(records) {
        var digits := NextRecordSound(payload, cursor);
        var end := NextRecord(payload, cursor).value.1;
        SplitRecordsIffPartitioned(payload, end, records[1..]);
        assert PartitionedAfter(payload, cursor, digits, records);
      }
      if Partitioned(payload, cursor, records) {
        var digits: nat :| RecordAt(payload, cursor, digits, records[0]) && PartitionedAfter(payload, cursor, digits, records);
        NextRecordComplete(payload, cursor, digits, records[0]);
        SplitRecordsIffPartitioned(payload, cursor + DecimalValue(payload[cursor..cursor + digits]), records[1..]);
        assert records == [records[0]] + records[1..];
      }
    }
  }

  // ------------------------------------------------------------- the printer

  /** The bytes of one record: its own total length, then `keyword=value` and a newline. */
  function RecordBytes(record: RawRecord): seq<Byte>
  {
    var suffix := |record.keyword| + |record.value| + 3;
    Line(Decimal(SelfCountingLength(suffix)), Content(record))
  }

  function RecordsBytes(records: seq<RawRecord>): seq<Byte>
  {
    if records == [] then [] else RecordBytes(records[0]) + RecordsBytes(records[1..])
  }

  /** The printed record has exactly the length it states. */
  lemma RecordStatesItsLength(record: RawRecord)
    ensures var suffix := |record.keyword| + |record.value| + 3;
            |RecordBytes(record)| == SelfCountingLength(suffix)
  {
    SelfCountingLengthIsLeast(|record.keyword| + |record.value| + 3);
  }

  /** A printed record is found where it was printed, whatever surrounds it. */
  lemma PrintedRecordStands(before: seq<Byte>, record: RawRecord, after: seq<Byte>)
    requires Printable(record)
    requires |before + RecordBytes(record) + after| < U64_LIMIT
    ensures var payload := before + RecordBytes(record) + after;
            NextRecord(payload, |before|) == Ok((record, |before| + |RecordBytes(record)|))
  {
    hide NextRecord, RecordContent, Content, SelfCountingLength, Decimal;
    var printed := RecordBytes(record);
    var payload := before + printed + after;
    RecordStatesItsLength(record);
    var text := Decimal(|printed|);
    DecimalValueOfDecimal(|printed|);
    var cursor, digits := |before|, |text|;
    LineParts(text, Content(record));
    assert payload[cursor..cursor + |printed|] == printed;
    assert payload[cursor..cursor + digits] == printed[..digits];
    NextRecordComplete(payload, cursor, digits, record);
  }

  /** Printing records and splitting the result gives the same records back. */
  lemma {:induction false} PrintSplitRoundTrip(before: seq<Byte>, records: seq<RawRecord>)
    requires forall i :: 0 <= i < |records| ==> Printable(records[i])
    requires |before + RecordsBytes(records)| < U64_LIMIT
    ensures SplitRecords(before + RecordsBytes(records), |before|) == Ok(records)
    decreases |records|
  {
    hide NextRecord, RecordBytes;
    if records == [] {
    } else {
      var printed, rest := RecordBytes(records[0]), RecordsBytes(records[1..]);
      assert before + RecordsBytes(records) == before + printed + rest;
      PrintedRecordStands(before, records[0], rest);
      PrintSplitRoundTrip(before + printed, records[1..]);
      assert records == [records[0]] + records[1..];
    }
  }
}
