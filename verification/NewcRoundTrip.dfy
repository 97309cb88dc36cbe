/** The `newc` writer and parser are inverse: reading back what was written, and
    what every accepted image guarantees about writing it again. */
module NewcRoundTrip {
  import opened Bytes
  import opened Hexadecimal
  import opened Newc
  import opened Text
  import opened Wrappers

  // One record -----------------------------------------------------------------

  lemma {:induction false} HexFieldAt(values: seq<int>, k: nat)
    requires forall j :: 0 <= j < |values| ==> Fits(values[j])
    requires k < |values|
    ensures Fits(values[k]) && HexFields(values)[8 * k..8 * k + 8] == Hex(values[k], 8)
    decreases |values|
  {
    var n := |values| - 1;
    assert Fits(values[n]);
    var (init, last) := (HexFields(values[..n]), Hex(values[n], 8));
    assert HexFields(values) == init + last;
    if k < n {
      HexFieldAt(values[..n], k);
      assert (init + last)[8 * k..8 * k + 8] == init[8 * k..8 * k + 8];
    }
  }

  /** What the header's fields, as they stand, are read as. */
  ghost predicate FieldsRead(fields: seq<byte>, values: seq<int>) {
    |fields| == 104 && AllNumeric(FieldTexts(fields)) && FieldValues(FieldTexts(fields)) == values
  }

  lemma FieldsReadBack(values: seq<int>)
    requires |values| == 13 && forall k :: 0 <= k < 13 ==> Fits(values[k])
    ensures FieldsRead(HexFields(values), values)
  {
    hide ParseInt, HexFields, Hex;
    var texts := FieldTexts(HexFields(values));
    forall k | 0 <= k < 13 ensures ParseInt(texts[k]) == Some(values[k]) {
      HexFieldAt(values, k);
      HexCapacityOf8();
      HexRoundTrip(values[k], 8);
      PlainDigitsRead(Hex(values[k], 8));
    }
    assert forall k :: 0 <= k < 13 ==> Numeric(texts[k]);
  }

  function MagicOf(checked: bool): (m: seq<byte>)
    ensures |m| == 6
  {
    if checked then CRC_MAGIC else MAGIC
  }

  lemma HeaderReadBack(fields: seq<byte>, values: seq<int>, checked: bool)
    requires FieldsRead(fields, values)
    ensures ReadHeader(MagicOf(checked), fields) == Ok(Header(checked, values))
  {
    assert MAGIC[5] != CRC_MAGIC[5];
  }

  /** What a body reads as, in the parser's order of checks. */
  function BodyReading(h: Header, name: seq<byte>, payload: seq<byte>, next: nat): Result<Record, NewcError>
    requires |h.values| == 13
  {
    if |name| + 1 > MAX_NAME_BYTES then Err(BadNameLength)
    else if !Utf8(name) then Err(NameNotUtf8)
    else if h.checked && Sum(payload) % U32 != h.values[12] then Err(ChecksumMismatch)
    else Ok(Record(EntryOf(h.values, name, payload), next))
  }

  lemma NameInPlace(image: seq<byte>, nameStart: nat, name: seq<byte>, nameEnd: nat)
    requires At(image, nameStart, name) && At(image, nameStart + |name|, [0]) && nameEnd == nameStart + |name| + 1
    ensures nameEnd <= |image| && LastByte(image, nameEnd) == 0 && Slice(image, nameStart, nameEnd - 1) == name
  {
    assert image[nameEnd - 1] == image[nameEnd - 1..nameEnd][0];
  }

  /** The body of a record, for any header that announces its lengths. */
  lemma BodyWithName(image: seq<byte>, nameStart: nat, h: Header, name: seq<byte>, nameEnd: nat,
                     dataStart: nat, payload: seq<byte>, end: nat)
    requires |h.values| == 13
    requires h.values[6] == |payload| && h.values[11] == |name| + 1 && nameEnd == nameStart + |name| + 1
    requires nameEnd <= |image| && LastByte(image, nameEnd) == 0 && Slice(image, nameStart, nameEnd - 1) == name
    requires dataStart == Align4(nameEnd) && dataStart + |payload| <= |image|
    requires Slice(image, dataStart, dataStart + |payload|) == payload && Align4(dataStart + |payload|) == end
    ensures ReadBody(image, nameStart, h) == BodyReading(h, name, payload, end)
  {
    hide Utf8, EntryOf, Align4, Sum, Slice, LastByte;
  }

  lemma RecordParts(image: seq<byte>, offset: nat, start: seq<byte>, payload: seq<byte>)
    requires At(image, offset, Padded(start) + Padded(payload))
    ensures At(image, offset, start)
    ensures At(image, offset + |start| + Pad4(|start|), payload)
  {
    AtSplits(image, offset, Padded(start), Padded(payload));
    AtSplits(image, offset, start, Zeros(Pad4(|start|)));
    AtSplits(image, offset + |Padded(start)|, payload, Zeros(Pad4(|payload|)));
  }

  lemma StartParts(image: seq<byte>, offset: nat, header: seq<byte>, name: seq<byte>)
    requires At(image, offset, header + (name + [0]))
    ensures At(image, offset, header)
    ensures At(image, offset + |header|, name) && At(image, offset + |header| + |name|, [0])
  {
    AtSplits(image, offset, header, name + [0]);
    AtSplits(image, offset + |header|, name, [0]);
  }

  lemma EntryReadBack(e: CpioEntry, values: seq<int>)
    requires Encodable(e) && values == HeaderValues(e)
    ensures EntryOf(values, e.name, e.data) == e
  {
    var v := HeaderValues(e);
    assert v[0] == e.inode && v[1] == e.mode && v[2] == e.uid && v[3] == e.gid && v[4] == e.nlink;
    assert v[5] == e.mtime && v[7] == e.devMajor && v[8] == e.devMinor;
    assert v[9] == e.rdevMajor && v[10] == e.rdevMinor;
  }

  lemma HeaderInPlace(image: seq<byte>, offset: nat, fields: seq<byte>, values: seq<int>, checked: bool)
    requires FieldsRead(fields, values) && At(image, offset, MagicOf(checked) + fields)
    ensures offset + 110 <= |image|
    ensures ReadHeader(Slice(image, offset, offset + 6), Slice(image, offset + 6, offset + 110))
         == Ok(Header(checked, values))
  {
    hide MagicOf, FieldsRead, ReadHeader;
    FieldsLength(fields, values);
    AtSplits(image, offset, MagicOf(checked), fields);
    HeaderReadBack(fields, values, checked);
  }

  lemma FieldsLength(fields: seq<byte>, values: seq<int>)
    requires FieldsRead(fields, values)
    ensures |fields| == 104 && |values| == 13
  {
  }

  lemma AlignedEnd(base: nat, length: nat, end: nat)
    requires base % 4 == 0 && end == base + length + Pad4(length)
    ensures Align4(base + length) == end && end % 4 == 0
  {
    AlignedPads(base, length);
  }

  lemma SliceAt(image: seq<byte>, at: nat, part: seq<byte>)
    requires At(image, at, part)
    ensures at + |part| <= |image| && Slice(image, at, at + |part|) == part
  {
  }

  lemma BodyInPlace(image: seq<byte>, offset: nat, h: Header, name: seq<byte>, payload: seq<byte>, start: nat, end: nat)
    requires |h.values| == 13 && offset % 4 == 0
    requires h.values[6] == |payload| && h.values[11] == |name| + 1 && start == 110 + |name| + 1
    requires end == offset + start + Pad4(start) + |payload| + Pad4(|payload|)
    requires At(image, offset + 110, name) && At(image, offset + 110 + |name|, [0])
    requires At(image, offset + start + Pad4(start), payload)
    ensures ReadBody(image, offset + 110, h) == BodyReading(h, name, payload, end)
  {
    hide ReadBody, BodyReading, Align4, Slice, LastByte, At;
    var dataStart := offset + start + Pad4(start);
    AlignedEnd(offset, start, dataStart);
    AlignedEnd(dataStart, |payload|, end);
    SliceAt(image, dataStart, payload);
    NameInPlace(image, offset + 110, name, offset + start);
    BodyWithName(image, offset + 110, h, name, offset + start, dataStart, payload, end);
  }

  lemma ReadVia(image: seq<byte>, offset: nat, h: Header, r: Result<Record, NewcError>)
    requires offset + 110 <= |image| && |h.values| == 13 && ReadBody(image, offset + 110, h) == r
    requires ReadHeader(Slice(image, offset, offset + 6), Slice(image, offset + 6, offset + 110)) == Ok(h)
    ensures ReadRecord(image, offset) == r
  {
  }

  /** A record in place, whatever the spelling of its fields. */
  lemma PartsReadBack(image: seq<byte>, offset: nat, fields: seq<byte>, values: seq<int>, checked: bool,
                      name: seq<byte>, payload: seq<byte>, start: seq<byte>, next: nat)
    requires FieldsRead(fields, values) && |values| == 13 && offset % 4 == 0
    requires values[6] == |payload| && values[11] == |name| + 1
    requires start == MagicOf(checked) + fields + (name + [0])
    requires At(image, offset, Padded(start) + Padded(payload)) && next == offset + |Padded(start)| + |Padded(payload)|
    ensures ReadRecord(image, offset) == BodyReading(Header(checked, values), name, payload, next)
  {
    hide Padded, BodyReading, FieldsRead, ReadHeader, ReadBody, ReadRecord, Align4, MagicOf;
    var h := Header(checked, values);
    FieldsLength(fields, values);
    assert |Padded(start)| == |start| + Pad4(|start|) && |Padded(payload)| == |payload| + Pad4(|payload|);
    RecordParts(image, offset, start, payload);
    StartParts(image, offset, MagicOf(checked) + fields, name);
    HeaderInPlace(image, offset, fields, values, checked);
    BodyInPlace(image, offset, h, name, payload, |start|, next);
    ReadVia(image, offset, h, ReadBody(image, offset + 110, h));
  }

  /** Every written record with a short enough name is read back exactly. */
  lemma RecordReadBack(image: seq<byte>, offset: nat, e: CpioEntry, next: nat)
    requires Encodable(e) && At(image, offset, RecordBytes(e)) && offset % 4 == 0
    requires next == offset + |RecordBytes(e)|
    ensures ReadRecord(image, offset) ==
            if |e.name| + 1 > MAX_NAME_BYTES then Err(BadNameLength)
            else if !Utf8(e.name) then Err(NameNotUtf8)
            else Ok(Record(e, next))
  {
    hide ReadRecord, FieldsRead, HexFields, Utf8, EntryOf, Padded, Fits;
    EncodableMeansFits(e);
    var values := HeaderValues(e);
    EntryReadBack(e, values);
    FieldsReadBack(values);
    PartsReadBack(image, offset, HexFields(values), values, false, e.name, e.data, RecordStart(e), next);
  }

  // A whole image --------------------------------------------------------------

  ghost predicate AllEncodable(entries: seq<CpioEntry>) {
    forall i :: 0 <= i < |entries| ==> Encodable(entries[i])
  }

  /** What the parser requires of an entry beyond its fields. */
  predicate Readable(e: CpioEntry) {
    e.name != TRAILER && |e.name| + 1 <= MAX_NAME_BYTES && Utf8(e.name) && ValidName(e.name)
  }

  ghost predicate AllReadable(entries: seq<CpioEntry>) {
    forall i :: 0 <= i < |entries| ==> Readable(entries[i])
  }

  // The loop over any reader ----------------------------------------------------

  /** What reading the record of `e` gives, when the next one starts at `next`. */
  function Reading(e: CpioEntry, next: nat): Result<Record, NewcError> {
    if |e.name| + 1 > MAX_NAME_BYTES then Err(BadNameLength)
    else if !Utf8(e.name) then Err(NameNotUtf8)
    else Ok(Record(e, next))
  }

  lemma ReadableStep(read: int -> Result<Record, NewcError>, blank: int -> bool, offset: nat,
                     acc: seq<CpioEntry>, e: CpioEntry, next: nat)
    requires !blank(offset) && read(offset) == Reading(e, next) && Readable(e) && |acc| < MAX_ENTRIES
    ensures Scan(read, blank, offset, acc) == Scan(read, blank, next, acc + [e])
  {
  }

  lemma UnreadableStep(read: int -> Result<Record, NewcError>, blank: int -> bool, offset: nat,
                       acc: seq<CpioEntry>, e: CpioEntry, next: nat)
    requires !blank(offset) && !blank(next)
    requires read(offset).Err? || (read(offset) == Reading(e, next) && (!Readable(e) || |acc| >= MAX_ENTRIES))
    ensures Scan(read, blank, offset, acc).Err?
  {
  }

  lemma TrailerStep(read: int -> Result<Record, NewcError>, blank: int -> bool, offset: nat,
                    acc: seq<CpioEntry>, e: CpioEntry, next: nat)
    requires !blank(offset) && read(offset) == Ok(Record(e, next)) && blank(next)
    requires e.name == TRAILER && e.data == []
    ensures Scan(read, blank, offset, acc) == if |acc| < MAX_ENTRIES then Ok(acc) else Err(EntryLimit)
  {
  }

  /** A sound record reads as its entry; any other has a wrong sum and does not read. */
  ghost predicate RecordReads(read: int -> Result<Record, NewcError>, e: CpioEntry, sound: bool, offset: nat,
                              next: nat) {
    if sound then read(offset) == Reading(e, next) else read(offset).Err?
  }

  /** Records laid out one after another, a trailer, and then padding. */
  ghost predicate LaidOut(read: int -> Result<Record, NewcError>, blank: int -> bool, entries: seq<CpioEntry>,
                          sound: seq<bool>, offsets: seq<nat>, trailer: CpioEntry, end: nat) {
    && |offsets| == |entries| + 1 && |sound| == |entries|
    && (forall i :: 0 <= i <= |entries| ==> !blank(offsets[i]))
    && (forall i :: 0 <= i < |entries| ==> RecordReads(read, entries[i], sound[i], offsets[i], offsets[i + 1]))
    && read(offsets[|entries|]) == Ok(Record(trailer, end)) && blank(end)
    && trailer.name == TRAILER && trailer.data == []
  }

  /** A parser state: what is returned from an offset on with these entries read. */
  type Parser = (int, seq<CpioEntry>) -> Result<seq<CpioEntry>, NewcError>

  /** The entry between two offsets is read, whatever was read before it. */
  ghost predicate Passes(parse: Parser, offset: nat, e: CpioEntry, next: nat) {
    forall acc: seq<CpioEntry> {:trigger acc + [e]} :: |acc| < MAX_ENTRIES ==>
      parse(offset, acc) == parse(next, acc + [e])
  }

  lemma {:induction false} PassesAll(parse: Parser, entries: seq<CpioEntry>, offsets: seq<nat>, i: nat, n: nat)
    requires i <= n <= |entries| && |offsets| == |entries| + 1 && n <= MAX_ENTRIES
    requires forall k :: 0 <= k < n ==> Passes(parse, offsets[k], entries[k], offsets[k + 1])
    ensures parse(offsets[i], entries[..i]) == parse(offsets[n], entries[..n])
    decreases n - i
  {
    if i < n {
      assert Passes(parse, offsets[i], entries[i], offsets[i + 1]);
      assert entries[..i] + [entries[i]] == entries[..i + 1];
      PassesAll(parse, entries, offsets, i + 1, n);
    }
  }

  function ParserOf(read: int -> Result<Record, NewcError>, blank: int -> bool): Parser {
    (offset: int, acc: seq<CpioEntry>) => Scan(read, blank, offset, acc)
  }

  lemma ReadableEntryPasses(read: int -> Result<Record, NewcError>, blank: int -> bool, offset: nat, e: CpioEntry,
                            next: nat)
    requires !blank(offset) && read(offset) == Reading(e, next) && Readable(e)
    ensures Passes(ParserOf(read, blank), offset, e, next)
  {
    forall acc: seq<CpioEntry> | |acc| < MAX_ENTRIES
      ensures Scan(read, blank, offset, acc) == Scan(read, blank, next, acc + [e])
    {
      ReadableStep(read, blank, offset, acc, e, next);
    }
  }

  /** The first entry that cannot be read, or the limit, or the end. */
  lemma {:induction false} FirstObstacle(entries: seq<CpioEntry>, sound: seq<bool>, i: nat) returns (n: nat)
    requires i <= |entries| == |sound| && i <= MAX_ENTRIES
    ensures i <= n <= |entries| && n <= MAX_ENTRIES && forall k :: i <= k < n ==> sound[k] && Readable(entries[k])
    ensures n == |entries| || n == MAX_ENTRIES || !sound[n] || !Readable(entries[n])
    decreases |entries| - i
  {
    n := i;
    if i < |entries| && i < MAX_ENTRIES && sound[i] && Readable(entries[i]) {
      n := FirstObstacle(entries, sound, i + 1);
    }
  }

  predicate AllSound(sound: seq<bool>) {
    forall i :: 0 <= i < |sound| ==> sound[i]
  }

  /** Records without checksums are always sound. */
  function Unchecked(n: nat): (sound: seq<bool>)
    ensures |sound| == n && AllSound(sound)
  {
    seq(n, _ => true)
  }

  /** The loop succeeds exactly when every entry is sound and readable and fewer than
      65536 come before the trailer, and then returns them all in order. */
  lemma ScanOfLayout(read: int -> Result<Record, NewcError>, blank: int -> bool, entries: seq<CpioEntry>,
                     sound: seq<bool>, offsets: seq<nat>, trailer: CpioEntry, end: nat)
    requires LaidOut(read, blank, entries, sound, offsets, trailer, end)
    ensures var r := Scan(read, blank, offsets[0], []);
      && (r.Ok? <==> |entries| < MAX_ENTRIES && AllReadable(entries) && AllSound(sound))
      && (r.Ok? ==> r.value == entries)
  {
    assert entries[..0] == [] && entries[..|entries|] == entries;
    var n := FirstObstacle(entries, sound, 0);
    forall k | 0 <= k < n ensures Passes(ParserOf(read, blank), offsets[k], entries[k], offsets[k + 1]) {
      ReadableEntryPasses(read, blank, offsets[k], entries[k], offsets[k + 1]);
    }
    PassesAll(ParserOf(read, blank), entries, offsets, 0, n);
    if n < |entries| {
      UnreadableStep(read, blank, offsets[n], entries[..n], entries[n], offsets[n + 1]);
    } else {
      TrailerStep(read, blank, offsets[n], entries, trailer, end);
    }
  }

  // Written images -------------------------------------------------------------

  lemma WrittenRecordReads(image: seq<byte>, offset: nat, e: CpioEntry, next: nat)
    requires Encodable(e) && At(image, offset, RecordBytes(e)) && offset % 4 == 0
    requires next == offset + |RecordBytes(e)|
    ensures !AllZero(From(image, offset)) && ReadRecord(image, offset) == Reading(e, next)
  {
    hide Encodable, ReadRecord, Utf8;
    RecordReadBack(image, offset, e, next);
    assert image[offset..offset + |RecordBytes(e)|][0] == MAGIC[0];
    assert From(image, offset)[0] == image[offset];
  }

  lemma TrailerIsText()
    ensures Utf8(TRAILER)
  {
    hide Utf8;
    AsciiIsText(TRAILER);
  }

  lemma WrittenTrailerReads(image: seq<byte>, offset: nat, trailer: CpioEntry, end: nat)
    requires Encodable(trailer) && At(image, offset, RecordBytes(trailer)) && offset % 4 == 0
    requires trailer.name == TRAILER && end == offset + |RecordBytes(trailer)|
    ensures !AllZero(From(image, offset)) && ReadRecord(image, offset) == Ok(Record(trailer, end))
  {
    hide RecordBytes, Encodable, ReadRecord, AllZero, Utf8;
    WrittenRecordReads(image, offset, trailer, end);
    TrailerIsText();
  }

  lemma {:induction false} RecordsPrefix(entries: seq<CpioEntry>, i: nat)
    requires AllEncodable(entries) && i <= |entries|
    ensures Records(entries[..i]) <= Records(entries)
    decreases |entries| - i
  {
    hide RecordBytes, Encodable, Records;
    if i == |entries| {
      assert entries[..i] == entries;
    } else {
      RecordsPrefix(entries, i + 1);
      RecordsGrow(entries, i);
    }
  }

  lemma PrefixAt(image: seq<byte>, before: seq<byte>, part: seq<byte>, after: seq<byte>)
    requires after == before + part && after <= image
    ensures At(image, |before|, part)
  {
  }

  lemma WrittenEntryReads(image: seq<byte>, entries: seq<CpioEntry>, i: nat, offset: nat, next: nat)
    requires AllEncodable(entries) && Records(entries) <= image && i < |entries|
    requires offset == |Records(entries[..i])| && next == |Records(entries[..i + 1])|
    ensures !AllZero(From(image, offset)) && ReadRecord(image, offset) == Reading(entries[i], next)
  {
    hide RecordBytes, Encodable, Records, Reading, ReadRecord, AllZero;
    RecordsGrow(entries, i);
    RecordsPrefix(entries, i + 1);
    PrefixAt(image, Records(entries[..i]), RecordBytes(entries[i]), Records(entries[..i + 1]));
    WrittenRecordReads(image, offset, entries[i], next);
  }

  function Offsets(entries: seq<CpioEntry>): (o: seq<nat>)
    requires AllEncodable(entries)
    ensures |o| == |entries| + 1
    ensures forall i :: 0 <= i <= |entries| ==> o[i] == |Records(entries[..i])|
  {
    seq(|entries| + 1, i requires 0 <= i <= |entries| => |Records(entries[..i])|)
  }

  lemma EntryLaidAt(image: seq<byte>, entries: seq<CpioEntry>, i: nat, offset: nat, next: nat)
    requires AllEncodable(entries) && Records(entries) <= image && i < |entries|
    requires offset == |Records(entries[..i])| && next == |Records(entries[..i + 1])|
    ensures !Blank(image)(offset) && Reader(image)(offset) == Reading(entries[i], next)
  {
    hide AllZero, From, Reading, Records, AllEncodable, ReadRecord;
    WrittenEntryReads(image, entries, i, offset, next);
  }

  lemma TrailerLaidAt(image: seq<byte>, records: seq<byte>, trailer: CpioEntry, end: nat)
    requires Encodable(trailer) && trailer.name == TRAILER && |records| % 4 == 0
    requires records + RecordBytes(trailer) <= image && end == |records + RecordBytes(trailer)|
    requires AllZero(image[end..])
    ensures !Blank(image)(|records|) && Reader(image)(|records|) == Ok(Record(trailer, end)) && Blank(image)(end)
  {
    hide AllZero, RecordBytes, Encodable, ReadRecord;
    PrefixAt(image, records, RecordBytes(trailer), records + RecordBytes(trailer));
    WrittenTrailerReads(image, |records|, trailer, end);
  }

  lemma ImageLaidOut(entries: seq<CpioEntry>, trailer: CpioEntry, image: seq<byte>, end: nat)
    requires AllEncodable(entries) && Encodable(trailer) && trailer.name == TRAILER && trailer.data == []
    requires Records(entries) + RecordBytes(trailer) <= image && end == |Records(entries) + RecordBytes(trailer)|
    requires AllZero(image[end..])
    ensures LaidOut(Reader(image), Blank(image), entries, Unchecked(|entries|), Offsets(entries), trailer, end)
  {
    hide Encodable, Records, RecordBytes, Reading, Reader, Blank, AllZero;
    var offsets := Offsets(entries);
    forall i | 0 <= i < |entries|
      ensures !Blank(image)(offsets[i]) && Reader(image)(offsets[i]) == Reading(entries[i], offsets[i + 1])
    {
      EntryLaidAt(image, entries, i, offsets[i], offsets[i + 1]);
    }
    assert entries[..|entries|] == entries;
    TrailerLaidAt(image, Records(entries), trailer, end);
  }

  /** Reading back a written image: it succeeds exactly when every entry is
      readable and there are fewer than 65536, and then gives the entries back. */
  lemma ImageReadBack(entries: seq<CpioEntry>)
    requires Writable(entries)
    ensures var r := ParseRecords(ImageBytes(entries));
      && (r.Ok? <==> |entries| < MAX_ENTRIES && AllReadable(entries))
      && (r.Ok? ==> r.value == entries)
  {
    var trailer := TrailerEntry(MaxInode(entries) + 1);
    var image := ImageBytes(entries);
    var end := |Records(entries) + RecordBytes(trailer)|;
    ImageLaidOut(entries, trailer, image, end);
    assert entries[..0] == [];
    ScanOfLayout(Reader(image), Blank(image), entries, Unchecked(|entries|), Offsets(entries), trailer, end);
  }

  // What the parser guarantees -------------------------------------------------

  /** What every accepted entry satisfies; its fields may still be negative. */
  predicate Bounded(e: CpioEntry) {
    && e.inode < U32 && e.mode < U32 && e.uid < U32 && e.gid < U32 && e.nlink < U32 && e.mtime < U32
    && e.devMajor < U32 && e.devMinor < U32 && e.rdevMajor < U32 && e.rdevMinor < U32
  }

  predicate NonNegative(e: CpioEntry) {
    && 0 <= e.inode && 0 <= e.mode && 0 <= e.uid && 0 <= e.gid && 0 <= e.nlink && 0 <= e.mtime
    && 0 <= e.devMajor && 0 <= e.devMinor && 0 <= e.rdevMajor && 0 <= e.rdevMinor
  }

  predicate WellRead(e: CpioEntry) {
    Bounded(e) && |e.name| + 1 <= MAX_NAME_BYTES && Utf8(e.name)
  }

  lemma EncodableIff(e: CpioEntry)
    requires WellRead(e)
    ensures Encodable(e) <==> NonNegative(e) && Fits(|e.data|)
  {
  }

  lemma HeaderGuarantees(magic: seq<byte>, fields: seq<byte>)
    requires |fields| <= 104 && ReadHeader(magic, fields).Ok?
    ensures forall k :: 0 <= k < 13 ==> ReadHeader(magic, fields).value.values[k] < U32
  {
    hide ParseInt;
    var texts := FieldTexts(fields);
    HexCapacityOf8();
    forall k | 0 <= k < 13 ensures FieldValues(texts)[k] < U32 {
      ReadIsBounded(texts[k]);
      CapacityGrows(|texts[k]|, 8);
    }
  }

  lemma BodyGuarantees(data: seq<byte>, nameStart: int, h: Header)
    requires |h.values| == 13 && forall k :: 0 <= k < 13 ==> h.values[k] < U32
    requires ReadBody(data, nameStart, h).Ok?
    ensures WellRead(ReadBody(data, nameStart, h).value.entry)
  {
    hide Utf8, Sum;
  }

  lemma ReadRecordGuarantees(data: seq<byte>, offset: int)
    requires ReadRecord(data, offset).Ok?
    ensures WellRead(ReadRecord(data, offset).value.entry)
  {
    hide ReadHeader, ReadBody, WellRead;
    var (magic, fields) := (Slice(data, offset, offset + 6), Slice(data, offset + 6, offset + 110));
    HeaderGuarantees(magic, fields);
    BodyGuarantees(data, offset + 110, ReadHeader(magic, fields).value);
  }

  /** What the loop adds to a property of everything that is read. */
  ghost predicate Accepted(good: CpioEntry -> bool, e: CpioEntry) {
    good(e) && e.name != TRAILER && ValidName(e.name)
  }

  lemma {:induction false} ScanGuarantees(read: int -> Result<Record, NewcError>, blank: int -> bool,
                                          good: CpioEntry -> bool, offset: int, acc: seq<CpioEntry>)
    requires forall o: int :: read(o).Ok? ==> good(read(o).value.entry)
    requires Scan(read, blank, offset, acc).Ok? && forall i :: 0 <= i < |acc| ==> Accepted(good, acc[i])
    ensures var es := Scan(read, blank, offset, acc).value;
      |es| < MAX_ENTRIES && forall i :: 0 <= i < |es| ==> Accepted(good, es[i])
    decreases MAX_ENTRIES - |acc|
  {
    var r := read(offset).value;
    if r.entry.name != TRAILER {
      ScanGuarantees(read, blank, good, r.next, acc + [r.entry]);
    }
  }

  ghost predicate AllWellRead(entries: seq<CpioEntry>) {
    forall i :: 0 <= i < |entries| ==> WellRead(entries[i])
  }

  /** Everything the parser accepts is bounded as its fields are, can be read again, and
      leaves room for the trailer. */
  lemma ParseGuarantees(data: seq<byte>)
    requires ParseRecords(data).Ok?
    ensures var es := ParseRecords(data).value;
      AllWellRead(es) && AllReadable(es) && |es| < MAX_ENTRIES
  {
    var good := (e: CpioEntry) => WellRead(e);
    forall o: int | Reader(data)(o).Ok? ensures good(Reader(data)(o).value.entry) {
      ReadRecordGuarantees(data, o);
    }
    ScanGuarantees(Reader(data), Blank(data), good, 0, []);
    var es := ParseRecords(data).value;
    forall i | 0 <= i < |es| ensures WellRead(es[i]) && Readable(es[i]) {
      assert Accepted(good, es[i]);
    }
  }

  lemma {:induction false} MaxInodeIsGreatest(entries: seq<CpioEntry>)
    requires entries != []
    ensures forall i :: 0 <= i < |entries| ==> entries[i].inode <= MaxInode(entries)
    ensures exists i :: 0 <= i < |entries| && entries[i].inode == MaxInode(entries)
    decreases |entries|
  {
    var n := |entries| - 1;
    if n > 0 {
      MaxInodeIsGreatest(entries[..n]);
      var i :| 0 <= i < n && entries[..n][i].inode == MaxInode(entries[..n]);
      assert entries[i].inode == MaxInode(entries[..n]);
      forall j | 0 <= j < |entries| ensures entries[j].inode <= MaxInode(entries) {
        if j < n {
          assert entries[..n][j] == entries[j];
        }
      }
      assert entries[n].inode == MaxInode(entries) || entries[i].inode == MaxInode(entries);
    } else {
      assert entries[0].inode == MaxInode(entries);
    }
  }

  lemma TrailerFits(inode: int)
    ensures Encodable(TrailerEntry(inode)) <==> Fits(inode)
  {
  }

  /** Entries that fit their fields can be written exactly when no inode is the
      largest one, because the trailer takes the next number. */
  lemma WritableIff(entries: seq<CpioEntry>)
    ensures Writable(entries) <==>
              AllEncodable(entries) && forall i :: 0 <= i < |entries| ==> entries[i].inode != U32 - 1
  {
    TrailerFits(MaxInode(entries) + 1);
    if entries != [] {
      MaxInodeIsGreatest(entries);
      var top :| 0 <= top < |entries| && entries[top].inode == MaxInode(entries);
    }
  }
}
