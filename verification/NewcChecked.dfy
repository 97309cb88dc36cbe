/** Whole archives whatever the spelling of their header fields, of which any record
    may carry a checksum. */
module NewcChecked {
  import opened Bytes
  import opened Hexadecimal
  import opened Newc
  import opened NewcRoundTrip
  import opened Text
  import opened Wrappers

  /** Thirteen fields of eight bytes. */
  type FieldBlock = f: seq<byte> | |f| == 104 witness Zeros(104)

  /** An entry as it is stored: the variant, and the text of its header fields. */
  datatype Stored = Stored(entry: CpioEntry, checked: bool, fields: FieldBlock)

  /** The fields, however they are spelled, describe the entry. */
  ghost predicate Storable(s: Stored) {
    && AllNumeric(FieldTexts(s.fields))
    && var values := FieldValues(FieldTexts(s.fields));
    && EntryOf(values, s.entry.name, s.entry.data) == s.entry
    && values[6] == |s.entry.data| && values[11] == |s.entry.name| + 1
  }

  function StoredStart(s: Stored): (start: seq<byte>)
    ensures |start| == 110 + |s.entry.name| + 1
  {
    MagicOf(s.checked) + s.fields + (s.entry.name + [0])
  }

  function StoredBytes(s: Stored): (b: seq<byte>)
    ensures |b| % 4 == 0 && |b| > 110
  {
    AlignedSum(|Padded(StoredStart(s))|, |Padded(s.entry.data)|);
    Padded(StoredStart(s)) + Padded(s.entry.data)
  }

  /** The payload of a checked record adds up to its last field. */
  ghost predicate SumHolds(s: Stored)
    requires Storable(s)
  {
    s.checked ==> Sum(s.entry.data) % U32 == FieldValues(FieldTexts(s.fields))[12]
  }

  // One record -------------------------------------------------------------------

  lemma StoredReading(s: Stored, values: seq<int>, next: nat)
    requires Storable(s) && FieldsRead(s.fields, values)
    ensures |values| == 13 && values[6] == |s.entry.data| && values[11] == |s.entry.name| + 1
    ensures var r := BodyReading(Header(s.checked, values), s.entry.name, s.entry.data, next);
      if SumHolds(s) then r == Reading(s.entry, next) else r.Err?
  {
    hide Utf8, EntryOf, Sum, ParseInt;
  }

  lemma StoredReadBack(image: seq<byte>, offset: nat, s: Stored, next: nat)
    requires Storable(s) && At(image, offset, StoredBytes(s)) && offset % 4 == 0
    requires next == offset + |StoredBytes(s)|
    ensures if SumHolds(s) then ReadRecord(image, offset) == Reading(s.entry, next) else ReadRecord(image, offset).Err?
  {
    var values := FieldValues(FieldTexts(s.fields));
    assert FieldsRead(s.fields, values);
    hide BodyReading, Reading, ReadRecord, SumHolds, MagicOf, Padded, Storable, FieldsRead;
    StoredReading(s, values, next);
    PartsReadBack(image, offset, s.fields, values, s.checked, s.entry.name, s.entry.data, StoredStart(s), next);
  }

  lemma StoredNotBlank(image: seq<byte>, offset: nat, s: Stored)
    requires At(image, offset, StoredBytes(s))
    ensures !AllZero(From(image, offset))
  {
    assert image[offset..offset + |StoredBytes(s)|][0] == MagicOf(s.checked)[0] == 0x30;
    assert From(image, offset)[0] == image[offset];
  }

  // A whole image ------------------------------------------------------------------

  ghost predicate AllStorable(records: seq<Stored>) {
    forall i :: 0 <= i < |records| ==> Storable(records[i])
  }

  function Parts(records: seq<Stored>): (parts: seq<seq<byte>>)
    requires AllStorable(records)
    ensures |parts| == |records| && forall i :: 0 <= i < |records| ==> parts[i] == StoredBytes(records[i])
  {
    seq(|records|, i requires 0 <= i < |records| => StoredBytes(records[i]))
  }

  function Entries(records: seq<Stored>): (entries: seq<CpioEntry>)
    ensures |entries| == |records| && forall i :: 0 <= i < |records| ==> entries[i] == records[i].entry
  {
    seq(|records|, i requires 0 <= i < |records| => records[i].entry)
  }

  ghost function Sums(records: seq<Stored>): (sound: seq<bool>)
    requires AllStorable(records)
    ensures |sound| == |records| && forall i :: 0 <= i < |records| ==> sound[i] == SumHolds(records[i])
  {
    seq(|records|, i requires 0 <= i < |records| => SumHolds(records[i]))
  }

  function Starts(parts: seq<seq<byte>>): (offsets: seq<nat>)
    ensures |offsets| == |parts| + 1 && forall i :: 0 <= i <= |parts| ==> offsets[i] == |Concat(parts[..i])|
  {
    seq(|parts| + 1, i requires 0 <= i <= |parts| => |Concat(parts[..i])|)
  }

  lemma NextPart(parts: seq<seq<byte>>, i: nat)
    requires i < |parts|
    ensures Concat(parts[..i + 1]) == Concat(parts[..i]) + parts[i]
  {
    assert parts[..i + 1][..i] == parts[..i];
  }

  lemma {:induction false} PartsBefore(parts: seq<seq<byte>>, i: nat)
    requires i <= |parts|
    ensures Concat(parts[..i]) <= Concat(parts)
    decreases |parts| - i
  {
    if i == |parts| {
      assert parts[..i] == parts;
    } else {
      NextPart(parts, i);
      PartsBefore(parts, i + 1);
    }
  }

  lemma {:induction false} PartsAligned(parts: seq<seq<byte>>)
    requires forall i :: 0 <= i < |parts| ==> |parts[i]| % 4 == 0
    ensures |Concat(parts)| % 4 == 0
    decreases |parts|
  {
    if parts != [] {
      var n := |parts| - 1;
      PartsAligned(parts[..n]);
      AlignedSum(|Concat(parts[..n])|, |parts[n]|);
    }
  }

  lemma StoredLaidAt(image: seq<byte>, records: seq<Stored>, i: nat, offset: nat, next: nat)
    requires AllStorable(records) && Concat(Parts(records)) <= image && i < |records|
    requires offset == |Concat(Parts(records)[..i])| && next == |Concat(Parts(records)[..i + 1])|
    ensures !Blank(image)(offset)
    ensures RecordReads(Reader(image), records[i].entry, SumHolds(records[i]), offset, next)
  {
    hide Concat, StoredBytes, ReadRecord, Reading, SumHolds, AllZero, Storable, From;
    var parts := Parts(records);
    NextPart(parts, i);
    PartsBefore(parts, i + 1);
    PartsAligned(parts[..i]);
    PrefixAt(image, Concat(parts[..i]), parts[i], Concat(parts[..i + 1]));
    StoredReadBack(image, offset, records[i], next);
    StoredNotBlank(image, offset, records[i]);
  }

  /** The records in order, the trailer, and any NUL padding. */
  function StoredImage(records: seq<Stored>, trailer: Stored, padding: nat): seq<byte>
    requires AllStorable(records) && Storable(trailer)
  {
    Concat(Parts(records)) + StoredBytes(trailer) + Zeros(padding)
  }

  ghost predicate IsTrailer(s: Stored)
    requires Storable(s)
  {
    s.entry.name == TRAILER && s.entry.data == [] && SumHolds(s)
  }

  lemma TrailerReads(image: seq<byte>, parts: seq<byte>, trailer: Stored, end: nat)
    requires Storable(trailer) && IsTrailer(trailer) && |parts| % 4 == 0
    requires parts + StoredBytes(trailer) <= image && end == |parts + StoredBytes(trailer)|
    ensures !Blank(image)(|parts|) && Reader(image)(|parts|) == Ok(Record(trailer.entry, end))
  {
    hide StoredBytes, ReadRecord, SumHolds, AllZero, Storable, From, Utf8;
    PrefixAt(image, parts, StoredBytes(trailer), parts + StoredBytes(trailer));
    StoredReadBack(image, |parts|, trailer, end);
    StoredNotBlank(image, |parts|, trailer);
    TrailerIsText();
  }

  lemma StoredLaidOut(records: seq<Stored>, trailer: Stored, padding: nat, image: seq<byte>, end: nat)
    requires AllStorable(records) && Storable(trailer) && IsTrailer(trailer)
    requires image == StoredImage(records, trailer, padding)
    requires end == |Concat(Parts(records)) + StoredBytes(trailer)|
    ensures LaidOut(Reader(image), Blank(image), Entries(records), Sums(records), Starts(Parts(records)),
                    trailer.entry, end)
  {
    hide Concat, StoredBytes, Reader, Reading, SumHolds, Storable;
    var (parts, offsets) := (Parts(records), Starts(Parts(records)));
    assert Concat(parts) <= image && Concat(parts) + StoredBytes(trailer) <= image;
    assert parts[..|parts|] == parts && From(image, end) == Zeros(padding);
    PaddingIsBlank(image, end);
    hide AllZero, StoredImage, From, Blank;
    var (entries, sound) := (Entries(records), Sums(records));
    forall i | 0 <= i < |records|
      ensures !Blank(image)(offsets[i])
      ensures RecordReads(Reader(image), entries[i], sound[i], offsets[i], offsets[i + 1])
    {
      StoredLaidAt(image, records, i, offsets[i], offsets[i + 1]);
    }
    PartsAligned(parts);
    TrailerReads(image, Concat(parts), trailer, end);
    assert offsets[|records|] == |Concat(parts)|;
  }

  lemma PaddingIsBlank(image: seq<byte>, end: nat)
    requires AllZero(From(image, end))
    ensures Blank(image)(end)
  {
  }

  /** An archive of plain and checked records in any mixture and spelling parses exactly when every
      name is readable, there are fewer than 65536 entries and every stored sum is that
      of its payload; the result is then all entries in order. */
  lemma CheckedImageReadBack(records: seq<Stored>, trailer: Stored, padding: nat)
    requires AllStorable(records) && Storable(trailer) && IsTrailer(trailer)
    ensures var r := ParseRecords(StoredImage(records, trailer, padding));
      && (r.Ok? <==> |records| < MAX_ENTRIES && AllReadable(Entries(records))
                     && forall i :: 0 <= i < |records| ==> SumHolds(records[i]))
      && (r.Ok? ==> r.value == Entries(records))
  {
    hide StoredImage, Concat, StoredBytes, Storable, IsTrailer, AllReadable, Scan, SumHolds;
    var image := StoredImage(records, trailer, padding);
    var (parts, end) := (Parts(records), |Concat(Parts(records)) + StoredBytes(trailer)|);
    StoredLaidOut(records, trailer, padding, image, end);
    NoParts(parts);
    ScanOfLayout(Reader(image), Blank(image), Entries(records), Sums(records), Starts(parts), trailer.entry, end);
  }

  lemma NoParts(parts: seq<seq<byte>>)
    ensures Concat(parts[..0]) == []
  {
  }
}
