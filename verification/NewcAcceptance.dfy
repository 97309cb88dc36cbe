/** What a `newc` image and its names have to be: the parser as a relation between bytes
    and entries, without the parser. */
module NewcAcceptance {
  import opened Bytes
  import opened Hexadecimal
  import opened Newc
  import opened NewcArchive
  import opened NewcRoundTrip
  import opened Text
  import opened Wrappers

  // Names ----------------------------------------------------------------------------

  /** Neither empty nor a dot or two, and without NUL, backslash or slash. */
  predicate GoodPart(p: seq<byte>) {
    && p != [] && p != [0x2e] && p != [0x2e, 0x2e]
    && forall i :: 0 <= i < |p| ==> p[i] != 0 && p[i] != 0x5c && p[i] != 0x2f
  }

  ghost predicate GoodParts(parts: seq<seq<byte>>) {
    parts != [] && forall i :: 0 <= i < |parts| ==> GoodPart(parts[i])
  }

  lemma {:induction false} JoinedBytes(parts: seq<seq<byte>>, separator: byte, b: byte)
    requires b != separator
    ensures b in Join(parts, separator) <==> exists i :: 0 <= i < |parts| && b in parts[i]
    decreases |parts|
  {
    if |parts| > 1 {
      JoinedBytes(parts[1..], separator, b);
      assert forall i :: 0 < i < |parts| ==> parts[i] == parts[1..][i - 1];
    }
  }

  lemma JoinStarts(parts: seq<seq<byte>>, separator: byte)
    requires parts != [] && parts[0] != []
    ensures Join(parts, separator) != [] && Join(parts, separator)[0] == parts[0][0]
  {
  }

  lemma PartsOfValid(name: seq<byte>)
    requires ValidName(name) && name != [0x2e]
    ensures GoodParts(Split(name, 0x2f)) && Join(Split(name, 0x2f), 0x2f) == name
  {
    var parts := Split(name, 0x2f);
    JoinOfSplit(name, 0x2f);
    SplitPartsAreFree(name, 0x2f);
    JoinedBytes(parts, 0x2f, 0);
    JoinedBytes(parts, 0x2f, 0x5c);
    hide Split, Join;
    forall i | 0 <= i < |parts| ensures GoodPart(parts[i]) {
      assert parts[i] in parts;
    }
  }

  lemma JoinedIsValid(parts: seq<seq<byte>>)
    requires GoodParts(parts)
    ensures ValidName(Join(parts, 0x2f))
  {
    assert GoodPart(parts[0]);
    JoinStarts(parts, 0x2f);
    JoinedBytes(parts, 0x2f, 0);
    JoinedBytes(parts, 0x2f, 0x5c);
    hide Join, Split;
    forall p | p in parts ensures GoodPart(p) {
    }
    SplitOfJoin(parts, 0x2f);
  }

  /** A name is valid exactly when it is a dot or good parts with slashes between them. */
  lemma ValidNameIff(name: seq<byte>)
    ensures ValidName(name) <==> name == [0x2e] || exists parts :: GoodParts(parts) && name == Join(parts, 0x2f)
  {
    hide Join, Split, GoodParts;
    if ValidName(name) && name != [0x2e] {
      hide ValidName;
      PartsOfValid(name);
    }
    if parts :| GoodParts(parts) && name == Join(parts, 0x2f) {
      JoinedIsValid(parts);
    }
  }

  /** The record of the root directory can be read. */
  lemma RootIsReadable(e: CpioEntry)
    requires e.name == [0x2e]
    ensures Readable(e)
  {
    AsciiIsText(e.name);
    assert TRAILER[0] == 0x54;
  }

  /** An archive that starts with the root directory is read back as it was written. */
  lemma RootReadsBack(root: CpioEntry, others: seq<CpioEntry>)
    requires root.name == [0x2e] && Writable([root] + others) && AllReadable(others) && DistinctNames([root] + others)
    requires |others| + 1 < 65536
    ensures var r := Parse(ImageBytes([root] + others));
      r.Ok? && r.value.entries == [root] + others && [0x2e] in r.value.byName && r.value.byName[[0x2e]] == root
  {
    var entries := [root] + others;
    RootIsReadable(root);
    FirstReadable(root, others);
    hide AllReadable, NewArchive, Readable, Writable, ImageBytes, ParseRecords, Index, DistinctNames, ValidNames;
    ReadableNames(entries);
    ImageReadBack(entries);
    ConstructedIff(entries);
    IndexOfDistinct(entries, 0);
    IndexKeys(entries);
  }

  lemma FirstReadable(first: CpioEntry, others: seq<CpioEntry>)
    requires Readable(first) && AllReadable(others)
    ensures AllReadable([first] + others)
  {
    hide Readable;
  }

  lemma ReadableNames(entries: seq<CpioEntry>)
    requires AllReadable(entries)
    ensures ValidNames(entries)
  {
  }

  // Records --------------------------------------------------------------------------

  /** Thirteen fields of eight bytes, the last of which may be cut short, and their
      numbers. */
  ghost predicate FieldsAre(fields: seq<byte>, v: seq<int>) {
    && |v| == 13 && 96 < |fields| <= 104
    && forall k :: 0 <= k < 13 ==> ParseInt(Slice(fields, 8 * k, 8 * k + 8)) == Some(v[k])
  }

  /** `070701`, or `070702` for a record with a checksum. */
  function MagicText(checked: bool): seq<byte> {
    [0x30, 0x37, 0x30, 0x37, 0x30, if checked then 0x32 else 0x31]
  }

  /** The byte before an end that may count from the end of the data. */
  ghost predicate NulBefore(data: seq<byte>, end: int) {
    if end > 0 then end <= |data| && data[end - 1] == 0 else end > -|data| && data[|data| + end - 1] == 0
  }

  /** A record of `e` stands at an offset, with these numbers in its header, and the next
      one is at `next`. */
  ghost predicate Describes(data: seq<byte>, offset: int, checked: bool, v: seq<int>, e: CpioEntry, next: int) {
    && offset + 110 <= |data| && Slice(data, offset, offset + 6) == MagicText(checked)
    && FieldsAre(Slice(data, offset + 6, offset + 110), v)
    && 1 <= v[11] <= 4096
    && var nameEnd := offset + 110 + v[11];
    && NulBefore(data, nameEnd) && e.name == Slice(data, offset + 110, nameEnd - 1) && Utf8(e.name)
    && var dataStart := (nameEnd + 3) / 4 * 4;
    && dataStart + v[6] <= |data| && e.data == Slice(data, dataStart, dataStart + v[6])
    && (checked ==> Sum(e.data) % 0x1_0000_0000 == v[12])
    && e.inode == v[0] && e.mode == v[1] && e.uid == v[2] && e.gid == v[3] && e.nlink == v[4] && e.mtime == v[5]
    && e.devMajor == v[7] && e.devMinor == v[8] && e.rdevMajor == v[9] && e.rdevMinor == v[10]
    && next == (dataStart + v[6] + 3) / 4 * 4
  }

  ghost predicate RecordAt(data: seq<byte>, offset: int, e: CpioEntry, next: int) {
    exists checked, v :: Describes(data, offset, checked, v, e, next)
  }

  lemma AlignedUp(v: int)
    ensures Align4(v) == (v + 3) / 4 * 4
  {
  }

  lemma FieldsAreIff(fields: seq<byte>, v: seq<int>)
    requires |fields| <= 104
    ensures FieldsAre(fields, v) <==>
            |FieldTexts(fields)| == 13 && AllNumeric(FieldTexts(fields)) && FieldValues(FieldTexts(fields)) == v
  {
    hide ParseInt;
    var texts := FieldTexts(fields);
    if FieldsAre(fields, v) {
      assert forall k :: 0 <= k < 13 ==> texts[k] == Slice(fields, 8 * k, 8 * k + 8);
      forall k | 0 <= k < 13 ensures Numeric(texts[k]) {
        assert ParseInt(Slice(fields, 8 * k, 8 * k + 8)) == Some(v[k]);
      }
      assert FieldValues(texts) == v;
    }
    if |texts| == 13 && AllNumeric(texts) && FieldValues(texts) == v {
      forall k | 0 <= k < 13 ensures ParseInt(Slice(fields, 8 * k, 8 * k + 8)) == Some(v[k]) {
        assert texts[k] == Slice(fields, 8 * k, 8 * k + 8);
      }
    }
  }

  lemma HeaderIff(magic: seq<byte>, fields: seq<byte>, checked: bool, v: seq<int>)
    requires |fields| <= 104
    ensures ReadHeader(magic, fields) == Ok(Header(checked, v)) <==> magic == MagicText(checked) && FieldsAre(fields, v)
  {
    hide FieldsAre, FieldTexts, AllNumeric, FieldValues;
    FieldsAreIff(fields, v);
    assert MAGIC == MagicText(false) && CRC_MAGIC == MagicText(true) && MAGIC[5] != CRC_MAGIC[5];
  }

  lemma BodyIff(data: seq<byte>, offset: int, checked: bool, v: seq<int>, e: CpioEntry, next: int)
    requires |v| == 13 && offset + 110 <= |data| && Slice(data, offset, offset + 6) == MagicText(checked)
    requires FieldsAre(Slice(data, offset + 6, offset + 110), v)
    ensures ReadBody(data, offset + 110, Header(checked, v)) == Ok(Record(e, next)) <==>
            Describes(data, offset, checked, v, e, next)
  {
    hide Utf8, Slice, Sum, FieldsAre, Align4;
    var nameEnd := offset + 110 + v[11];
    AlignedUp(nameEnd);
    AlignedUp((nameEnd + 3) / 4 * 4 + v[6]);
  }

  /** The parser reads a record exactly where one stands. */
  lemma RecordIff(data: seq<byte>, offset: int, e: CpioEntry, next: int)
    ensures ReadRecord(data, offset) == Ok(Record(e, next)) <==> RecordAt(data, offset, e, next)
  {
    hide ReadBody, ReadHeader, Utf8, Sum, Slice, FieldsAre, NulBefore;
    var (magic, fields) := (Slice(data, offset, offset + 6), Slice(data, offset + 6, offset + 110));
    forall checked, v ensures ReadHeader(magic, fields) == Ok(Header(checked, v)) <==>
                                magic == MagicText(checked) && FieldsAre(fields, v)
    {
      HeaderIff(magic, fields, checked, v);
    }
    forall checked, v | |v| == 13 && offset + 110 <= |data| && magic == MagicText(checked) && FieldsAre(fields, v)
      ensures ReadBody(data, offset + 110, Header(checked, v)) == Ok(Record(e, next)) <==>
              Describes(data, offset, checked, v, e, next)
    {
      BodyIff(data, offset, checked, v, e, next);
    }
    if ReadRecord(data, offset) == Ok(Record(e, next)) {
      var h := ReadHeader(magic, fields).value;
      assert h == Header(h.checked, h.values);
      assert Describes(data, offset, h.checked, h.values, e, next);
    }
    if checked, v :| Describes(data, offset, checked, v, e, next) {
      assert FieldsAre(fields, v);
      FieldsCount(fields, v);
    }
  }

  lemma FieldsCount(fields: seq<byte>, v: seq<int>)
    requires FieldsAre(fields, v)
    ensures |v| == 13
  {
  }

  // Whole images -----------------------------------------------------------------------

  const TRAILER_TEXT: seq<byte> := [0x54, 0x52, 0x41, 0x49, 0x4c, 0x45, 0x52, 0x21, 0x21, 0x21]

  /** Something other than NUL stands at or after an offset. */
  ghost predicate More(data: seq<byte>, offset: int) {
    exists k :: 0 <= k < |data| && (if offset >= 0 then offset else |data| + offset) <= k && data[k] != 0
  }

  /** An entry stands at an offset, and the next record is at `next`. */
  ghost predicate EntryStands(data: seq<byte>, offset: int, e: CpioEntry, next: int) {
    More(data, offset) && RecordAt(data, offset, e, next) && e.name != TRAILER_TEXT && ValidName(e.name)
  }

  /** The trailer stands at an offset, with nothing but NUL bytes after it. */
  ghost predicate TrailerStands(data: seq<byte>, offset: int) {
    More(data, offset)
    && exists t, end :: RecordAt(data, offset, t, end) && t.name == TRAILER_TEXT && t.data == [] && !More(data, end)
  }

  /** Entries one after another from an offset on, and then the trailer. */
  ghost predicate Stand(data: seq<byte>, offsets: seq<int>, entries: seq<CpioEntry>) {
    && |offsets| == |entries| + 1
    && (forall i :: 0 <= i < |entries| ==> EntryStands(data, offsets[i], entries[i], offsets[i + 1]))
    && TrailerStands(data, offsets[|entries|])
  }

  lemma BlankIff(data: seq<byte>, offset: int)
    ensures Blank(data)(offset) <==> !More(data, offset)
  {
    var (from, rest) := (Bound(|data|, offset), From(data, offset));
    if !AllZero(rest) {
      var i :| 0 <= i < |rest| && rest[i] != 0;
      assert data[from + i] == rest[i];
    }
    if More(data, offset) {
      var k :| 0 <= k < |data| && (if offset >= 0 then offset else |data| + offset) <= k && data[k] != 0;
      assert rest[k - from] == data[k];
    }
  }

  lemma FirstStands(data: seq<byte>, offset: int, e: CpioEntry, offsets: seq<int>, entries: seq<CpioEntry>)
    requires Stand(data, offsets, entries) && EntryStands(data, offset, e, offsets[0])
    ensures Stand(data, [offset] + offsets, [e] + entries)
  {
    hide EntryStands, TrailerStands;
    var (os, es) := ([offset] + offsets, [e] + entries);
    forall i | 0 <= i < |es| ensures EntryStands(data, os[i], es[i], os[i + 1]) {
      assert i > 0 ==> es[i] == entries[i - 1];
    }
  }

  /** One pass of the parser. */
  lemma PassIff(data: seq<byte>, offset: int, acc: seq<CpioEntry>, e: CpioEntry, next: int)
    ensures EntryStands(data, offset, e, next) && |acc| < 65536 ==>
              Newc.Scan(Reader(data), Blank(data), offset, acc) == Newc.Scan(Reader(data), Blank(data), next, acc + [e])
    ensures TrailerStands(data, offset) && |acc| < 65536 ==>
              Newc.Scan(Reader(data), Blank(data), offset, acc) == Ok(acc)
    ensures !More(data, offset) || |acc| >= 65536 ==> Newc.Scan(Reader(data), Blank(data), offset, acc).Err?
  {
    hide ReadRecord, RecordAt, ValidName, More, AllZero;
    BlankIff(data, offset);
    RecordIff(data, offset, e, next);
    assert TRAILER == TRAILER_TEXT;
    if TrailerStands(data, offset) {
      var t, end :| RecordAt(data, offset, t, end) && t.name == TRAILER_TEXT && t.data == [] && !More(data, end);
      RecordIff(data, offset, t, end);
      BlankIff(data, end);
    }
  }

  lemma ScanOnce(read: int -> Result<Record, NewcError>, blank: int -> bool, offset: int, acc: seq<CpioEntry>)
    requires Newc.Scan(read, blank, offset, acc).Ok?
    ensures |acc| < 65536 && !blank(offset) && read(offset).Ok?
    ensures var r := read(offset).value;
      if r.entry.name == TRAILER then r.entry.data == [] && blank(r.next) else ValidName(r.entry.name)
  {
    hide ValidName;
  }

  lemma PassStands(data: seq<byte>, offset: int, acc: seq<CpioEntry>) returns (e: CpioEntry, next: int)
    requires Newc.Scan(Reader(data), Blank(data), offset, acc).Ok?
    ensures |acc| < 65536 && (TrailerStands(data, offset) || EntryStands(data, offset, e, next))
  {
    hide RecordAt, ValidName, More, Newc.Scan, ReadRecord, AllZero, From;
    ScanOnce(Reader(data), Blank(data), offset, acc);
    var r := ReadRecord(data, offset).value;
    e, next := r.entry, r.next;
    assert TRAILER == TRAILER_TEXT;
    BlankIff(data, offset);
    BlankIff(data, next);
    RecordIff(data, offset, e, next);
  }

  lemma {:induction false} StandingScans(data: seq<byte>, offsets: seq<int>, acc: seq<CpioEntry>,
                                         entries: seq<CpioEntry>)
    requires Stand(data, offsets, entries) && |acc| + |entries| < 65536
    ensures Newc.Scan(Reader(data), Blank(data), offsets[0], acc) == Ok(acc + entries)
    decreases |entries|
  {
    hide EntryStands, TrailerStands, Reader, Blank, Newc.Scan;
    if entries == [] {
      PassIff(data, offsets[0], acc, TrailerEntry(0), 0);
      assert acc + [] == acc;
    } else {
      assert EntryStands(data, offsets[0], entries[0], offsets[1]);
      PassIff(data, offsets[0], acc, entries[0], offsets[1]);
      StandingScans(data, offsets[1..], acc + [entries[0]], entries[1..]);
      assert acc + [entries[0]] + entries[1..] == acc + entries;
    }
  }

  lemma {:induction false} ScannedStand(data: seq<byte>, offset: int, acc: seq<CpioEntry>)
    returns (offsets: seq<int>, entries: seq<CpioEntry>)
    requires Newc.Scan(Reader(data), Blank(data), offset, acc).Ok?
    ensures Stand(data, offsets, entries) && offsets[0] == offset && |acc| + |entries| < 65536
    ensures Newc.Scan(Reader(data), Blank(data), offset, acc) == Ok(acc + entries)
    decreases 65536 - |acc|
  {
    hide EntryStands, TrailerStands, Reader, Blank, Newc.Scan;
    var e, next := PassStands(data, offset, acc);
    PassIff(data, offset, acc, e, next);
    if TrailerStands(data, offset) {
      offsets, entries := [offset], [];
      assert acc + [] == acc;
    } else {
      offsets, entries := ScannedStand(data, next, acc + [e]);
      FirstStands(data, offset, e, offsets, entries);
      assert acc + [e] + entries == acc + ([e] + entries);
      offsets, entries := [offset] + offsets, [e] + entries;
    }
  }

  /** An image is accepted exactly when fewer than 65536 entries of valid names stand in
      it one after another from its start, then the trailer, and then only NUL bytes; the
      result is those entries. */
  lemma ImageIff(data: seq<byte>, entries: seq<CpioEntry>)
    ensures ParseRecords(data) == Ok(entries) <==>
            |entries| < 65536 && exists offsets :: Stand(data, offsets, entries) && offsets[0] == 0
  {
    hide Stand, Newc.Scan, Reader, Blank;
    assert [] + entries == entries;
    if ParseRecords(data) == Ok(entries) {
      var offsets, es := ScannedStand(data, 0, []);
      assert [] + es == es;
    }
    if |entries| < 65536 {
      forall offsets | Stand(data, offsets, entries) && |offsets| > 0 && offsets[0] == 0
        ensures ParseRecords(data) == Ok(entries)
      {
        StandingScans(data, offsets, [], entries);
      }
      forall offsets | Stand(data, offsets, entries) ensures |offsets| > 0 {
        StandSize(data, offsets, entries);
      }
    }
  }

  lemma StandSize(data: seq<byte>, offsets: seq<int>, entries: seq<CpioEntry>)
    requires Stand(data, offsets, entries)
    ensures |offsets| == |entries| + 1
  {
  }

  /** The stored checksum is compared with the sum of the bytes. */
  lemma {:induction false} SumIs(a: seq<byte>, b: seq<byte>)
    ensures Sum([]) == 0 && Sum(a + b) == Sum(a) + Sum(b)
    ensures forall x: byte :: Sum([x]) == x
    decreases |a|
  {
    forall x: byte ensures Sum([x]) == x {
      assert [x][1..] == [];
    }
    if a == [] {
      assert a + b == b;
    } else {
      assert (a + b)[1..] == a[1..] + b;
      SumIs(a[1..], b);
    }
  }
}
