/** The archive object: entries with a name index, and archives as images. */
module NewcArchive {
  import opened Bytes
  import opened Hexadecimal
  import opened Newc
  import opened NewcChecked
  import opened NewcRoundTrip
  import opened Text
  import opened Wrappers

  datatype Archive = Archive(entries: seq<CpioEntry>, byName: map<seq<byte>, CpioEntry>)

  datatype LookupError =
    | UnsafePath | Missing | SymlinkLoop | TargetNotUtf8 | EscapesRoot | DepthExceeded

  datatype ArchiveError = Format(error: NewcError) | Lookup(cause: LookupError)

  // Construction and the index -------------------------------------------------

  /** The dictionary the constructor builds: the last entry of each name. */
  function Index(entries: seq<CpioEntry>): map<seq<byte>, CpioEntry> {
    if entries == [] then map[]
    else
      var last := entries[|entries| - 1];
      Index(entries[..|entries| - 1])[last.name := last]
  }

  predicate ValidNames(entries: seq<CpioEntry>) {
    forall i :: 0 <= i < |entries| ==> ValidName(entries[i].name)
  }

  ghost predicate DistinctNames(entries: seq<CpioEntry>) {
    forall i, j :: 0 <= i < j < |entries| ==> entries[i].name != entries[j].name
  }

  /** The constructor: duplicates show as an index smaller than the entry list. */
  function NewArchive(entries: seq<CpioEntry>): Result<Archive, NewcError> {
    if !ValidNames(entries) then Err(UnsafeName)
    else if |Index(entries)| != |entries| then Err(DuplicateName)
    else Ok(Archive(entries, Index(entries)))
  }

  function Parse(data: seq<byte>): Result<Archive, NewcError> {
    var entries :- ParseRecords(data);
    NewArchive(entries)
  }

  ghost predicate WellFormed(a: Archive) {
    ValidNames(a.entries) && DistinctNames(a.entries) && a.byName == Index(a.entries)
  }

  /** A linear search for the first entry of a name. */
  function Scan(entries: seq<CpioEntry>, name: seq<byte>): Option<CpioEntry> {
    if entries == [] then None
    else if entries[0].name == name then Some(entries[0])
    else Scan(entries[1..], name)
  }

  function NameSet(entries: seq<CpioEntry>): set<seq<byte>> {
    set e | e in entries :: e.name
  }

  lemma NameSetGrows(entries: seq<CpioEntry>, n: nat)
    requires n + 1 == |entries|
    ensures NameSet(entries) == NameSet(entries[..n]) + {entries[n].name}
  {
    assert entries == entries[..n] + [entries[n]];
  }

  lemma {:induction false} IndexKeys(entries: seq<CpioEntry>)
    ensures Index(entries).Keys == NameSet(entries)
    decreases |entries|
  {
    if entries != [] {
      var n := |entries| - 1;
      IndexKeys(entries[..n]);
      NameSetGrows(entries, n);
    }
  }

  lemma DistinctGrows(entries: seq<CpioEntry>, n: nat)
    requires n + 1 == |entries|
    ensures DistinctNames(entries) <==> DistinctNames(entries[..n]) && entries[n].name !in NameSet(entries[..n])
  {
    var init := entries[..n];
    if entries[n].name in NameSet(init) {
      var e :| e in init && e.name == entries[n].name;
      var i :| 0 <= i < n && init[i] == e;
      assert entries[i].name == entries[n].name;
    } else if DistinctNames(init) {
      forall i, j | 0 <= i < j < |entries| ensures entries[i].name != entries[j].name {
        assert entries[i] == init[i] && init[i] in init;
        if j < n {
          assert entries[j] == init[j];
        }
      }
    } else {
      var i, j :| 0 <= i < j < n && init[i].name == init[j].name;
      assert entries[i].name == entries[j].name;
    }
  }

  /** The index is as large as the list exactly when the names are distinct. */
  lemma {:induction false} IndexSize(entries: seq<CpioEntry>)
    ensures |NameSet(entries)| <= |entries|
    ensures |NameSet(entries)| == |entries| <==> DistinctNames(entries)
    decreases |entries|
  {
    if entries != [] {
      var n := |entries| - 1;
      IndexSize(entries[..n]);
      NameSetGrows(entries, n);
      DistinctGrows(entries, n);
    }
  }

  lemma {:induction false} IndexOfDistinct(entries: seq<CpioEntry>, i: nat)
    requires DistinctNames(entries) && i < |entries|
    ensures entries[i].name in Index(entries) && Index(entries)[entries[i].name] == entries[i]
    decreases |entries|
  {
    var n := |entries| - 1;
    if i < n {
      assert entries[..n][i] == entries[i];
      IndexOfDistinct(entries[..n], i);
    }
  }

  lemma {:induction false} ScanFinds(entries: seq<CpioEntry>, name: seq<byte>)
    ensures Scan(entries, name).None? ==> forall i :: 0 <= i < |entries| ==> entries[i].name != name
    ensures Scan(entries, name).Some? ==>
              exists i :: 0 <= i < |entries| && entries[i].name == name && Scan(entries, name) == Some(entries[i])
    decreases |entries|
  {
    if entries != [] && entries[0].name != name {
      ScanFinds(entries[1..], name);
      if Scan(entries, name).Some? {
        var i :| 0 <= i < |entries[1..]| && entries[1..][i].name == name
                 && Scan(entries[1..], name) == Some(entries[1..][i]);
        assert entries[i + 1] == entries[1..][i];
      } else {
        forall i | 0 <= i < |entries| ensures entries[i].name != name {
          if i > 0 {
            assert entries[i] == entries[1..][i - 1];
          }
        }
      }
    }
  }

  /** Constructing succeeds exactly on valid, distinct names. */
  lemma ConstructedIff(entries: seq<CpioEntry>)
    ensures NewArchive(entries).Ok? <==> ValidNames(entries) && DistinctNames(entries)
    ensures NewArchive(entries).Ok? ==> WellFormed(NewArchive(entries).value)
  {
    IndexSize(entries);
    IndexKeys(entries);
  }

  /** The index of every constructed archive agrees with a scan of its entries. */
  lemma IndexAgreesWithScan(entries: seq<CpioEntry>, name: seq<byte>)
    requires NewArchive(entries).Ok?
    ensures var a := NewArchive(entries).value;
      Scan(a.entries, name) == if name in a.byName then Some(a.byName[name]) else None
  {
    IndexSize(entries);
    IndexKeys(entries);
    ScanFinds(entries, name);
    if Scan(entries, name).Some? {
      var i :| 0 <= i < |entries| && entries[i].name == name && Scan(entries, name) == Some(entries[i]);
      IndexOfDistinct(entries, i);
    }
  }

  // Images of archives ---------------------------------------------------------

  /** Parsing what the writer produced gives back exactly the archive, when every
      name fits the parser's limits and there are fewer than 65536 entries, and
      fails otherwise. */
  lemma ArchiveRoundTrip(a: Archive)
    requires WellFormed(a) && Writable(a.entries)
    ensures Parse(ImageBytes(a.entries)).Ok? <==> |a.entries| < MAX_ENTRIES && AllReadable(a.entries)
    ensures Parse(ImageBytes(a.entries)).Ok? ==> Parse(ImageBytes(a.entries)) == Ok(a)
  {
    hide ImageBytes, AllReadable, ParseRecords, Index, DistinctNames, ValidNames;
    ImageReadBack(a.entries);
    ConstructedIff(a.entries);
  }

  /** Writing an accepted image again succeeds exactly when every field and size can be
      written and no entry has the largest inode number, and the result parses to the
      same archive. */
  lemma ParsedArchiveNormalises(data: seq<byte>)
    requires Parse(data).Ok?
    ensures var a := Parse(data).value;
      && WellFormed(a)
      && (Writable(a.entries) <==>
            forall i :: 0 <= i < |a.entries| ==> Rewritable(a.entries[i]))
      && (Writable(a.entries) ==> Parse(ImageBytes(a.entries)) == Ok(a))
  {
    var a := Parse(data).value;
    hide ParseRecords, ImageBytes, Index, Readable, Writable, WellRead, Rewritable, DistinctNames, ValidNames;
    ParseGuarantees(data);
    ConstructedIff(a.entries);
    RewritableIff(a.entries);
    if Writable(a.entries) {
      ArchiveRoundTrip(a);
    }
  }

  lemma RewritableIff(entries: seq<CpioEntry>)
    requires AllWellRead(entries)
    ensures Writable(entries) <==> forall i :: 0 <= i < |entries| ==> Rewritable(entries[i])
  {
    hide Utf8, NonNegative, Bounded, Writable, Encodable;
    WritableIff(entries);
    forall i | 0 <= i < |entries|
      ensures Encodable(entries[i]) <==> NonNegative(entries[i]) && Fits(|entries[i].data|)
    {
      EncodableIff(entries[i]);
    }
  }

  /** No negative field, a payload of 32-bit size, and not the last inode number. */
  predicate Rewritable(e: CpioEntry) {
    NonNegative(e) && Fits(|e.data|) && e.inode != U32 - 1
  }

  // Images that cannot be written again --------------------------------------------

  /** An empty file with this inode and modification time. */
  function EmptyFile(inode: int, mtime: int): CpioEntry {
    CpioEntry([0x61], inode, 0, 0, 0, 1, mtime, [], 0, 0, 0, 0)
  }

  lemma EmptyFileReadable(inode: int, mtime: int)
    ensures Readable(EmptyFile(inode, mtime))
  {
    AsciiIsText([0x61]);
    SplitPrefix([0x61], [], SLASH);
    assert [0x61] + [] == [0x61] && Split([], SLASH) == [[]];
  }

  lemma PlainFields(e: CpioEntry) returns (s: Stored)
    requires Encodable(e)
    ensures s.entry == e && !s.checked && Storable(s) && FieldsRead(s.fields, HeaderValues(e))
  {
    hide ParseInt;
    EncodableMeansFits(e);
    FieldsReadBack(HeaderValues(e));
    s := Stored(e, false, HexFields(HeaderValues(e)));
    EntryReadBack(e, HeaderValues(e));
  }

  /** A field spelled another way. */
  lemma Respelled(fields: seq<byte>, values: seq<int>, k: nat, text: seq<byte>, v: int, other: seq<byte>)
    requires FieldsRead(fields, values) && k < 13 && |text| == 8 && ParseInt(text) == Some(v)
    requires other == fields[..8 * k] + text + fields[8 * k + 8..]
    ensures |values| == 13 && FieldsRead(other, values[k := v])
  {
    hide ParseInt;
    var (a, b) := (FieldTexts(fields), FieldTexts(other));
    forall i | 0 <= i < 13 ensures b[i] == if i == k then text else a[i] {
    }
    assert forall i :: 0 <= i < 13 ==> Numeric(b[i]) by {
      assert forall i :: 0 <= i < 13 ==> Numeric(a[i]);
    }
  }

  /** `-0000001` */
  lemma MinusOne(text: seq<byte>)
    requires text == [MINUS] + Hex(1, 7)
    ensures |text| == 8 && ParseInt(text) == Some(-1)
  {
    hide HexValue, Hex, HexCapacity, ParseInt;
    var digits := Hex(1, 7);
    CapacityGrows(1, 7);
    SixteenDigits();
    HexRoundTrip(1, 7);
    OneGroup(digits);
    assert text == [] + ([MINUS] + ([] + digits)) + [];
    SpellingReads(text, -1, [], [MINUS], [], [digits], []);
  }

  lemma SixteenDigits()
    ensures HexCapacity(1) == 16
  {
  }

  /** The only entry of the image is read as it is stored. */
  lemma OneEntryImage(records: seq<Stored>, trailer: Stored, data: seq<byte>)
    requires AllStorable(records) && Storable(trailer) && data == StoredImage(records, trailer, 0)
    requires |records| == 1 && !records[0].checked && !trailer.checked && trailer.entry == TrailerEntry(0)
    requires Readable(records[0].entry)
    ensures ParseRecords(data) == Ok([records[0].entry])
  {
    hide StoredImage, Storable, Readable, ParseRecords;
    assert Entries(records) == [records[0].entry];
    CheckedImageReadBack(records, trailer, 0);
  }

  lemma OneRecord(s: Stored) returns (records: seq<Stored>)
    requires Storable(s)
    ensures records == [s] && AllStorable(records)
  {
    hide Storable;
    records := [s];
  }

  lemma OneEntryUnwritable(e: CpioEntry, data: seq<byte>)
    requires Readable(e) && !Rewritable(e) && ParseRecords(data) == Ok([e])
    ensures Parse(data).Ok? && Parse(data).value.entries == [e] && !Writable(Parse(data).value.entries)
  {
    hide Rewritable, Writable, Readable, ParseRecords;
    assert ValidName(e.name) by {
      ReadableName(e);
    }
    ConstructedIff([e]);
    ParsedArchiveNormalises(data);
    assert [e][0] == e;
  }

  lemma ReadableName(e: CpioEntry)
    requires Readable(e)
    ensures ValidName(e.name)
  {
  }

  lemma StoredUnwritable(s: Stored) returns (data: seq<byte>)
    requires Storable(s) && !s.checked && Readable(s.entry) && !Rewritable(s.entry)
    ensures Parse(data).Ok? && Parse(data).value.entries == [s.entry] && !Writable(Parse(data).value.entries)
  {
    hide *;
    TrailerEncodable();
    var trailer := PlainFields(TrailerEntry(0));
    var records := OneRecord(s);
    data := StoredImage(records, trailer, 0);
    OneEntryImage(records, trailer, data);
    OneEntryUnwritable(s.entry, data);
  }

  lemma TrailerEncodable()
    ensures Encodable(TrailerEntry(0))
  {
  }

  lemma EmptyFileEncodable(inode: int)
    requires Fits(inode)
    ensures Encodable(EmptyFile(inode, 0))
  {
  }

  lemma NotRewritable(mtime: int, inode: int)
    requires inode == U32 - 1 || mtime < 0
    ensures !Rewritable(EmptyFile(inode, mtime))
  {
  }

  /** An accepted image that cannot be written again: its only inode is the largest
      32-bit number, so the trailer's would not fit. */
  lemma LargestInodeCannotBeWritten() returns (data: seq<byte>)
    ensures Parse(data).Ok? && Parse(data).value.entries == [EmptyFile(U32 - 1, 0)]
    ensures !Writable(Parse(data).value.entries)
  {
    EmptyFileEncodable(U32 - 1);
    hide *;
    var s := PlainFields(EmptyFile(U32 - 1, 0));
    EmptyFileReadable(U32 - 1, 0);
    NotRewritable(0, U32 - 1);
    data := StoredUnwritable(s);
  }

  lemma RespelledTime(p: Stored, plain: CpioEntry) returns (s: Stored)
    requires FieldsRead(p.fields, HeaderValues(plain))
    ensures s.entry == EmptyFile(1, -1) && !s.checked && FieldsRead(s.fields, HeaderValues(plain)[5 := -1])
  {
    hide *;
    var text := [MINUS] + Hex(1, 7);
    MinusOne(text);
    var fields: seq<byte> := p.fields[..40] + text + p.fields[48..];
    Respelled(p.fields, HeaderValues(plain), 5, text, -1, fields);
    s := Stored(EmptyFile(1, -1), false, fields);
  }

  /** Another one: a header field that is spelled with a minus sign. */
  lemma NegativeFieldCannotBeWritten() returns (data: seq<byte>)
    ensures Parse(data).Ok? && Parse(data).value.entries == [EmptyFile(1, -1)]
    ensures !Writable(Parse(data).value.entries)
  {
    EmptyFileEncodable(1);
    hide *;
    var plain := EmptyFile(1, 0);
    var p := PlainFields(plain);
    var s := RespelledTime(p, plain);
    NegativeIsStorable(s, plain);
    EmptyFileReadable(1, -1);
    NotRewritable(-1, 1);
    data := StoredUnwritable(s);
  }

  lemma NegativeIsStorable(s: Stored, plain: CpioEntry)
    requires plain == EmptyFile(1, 0) && s.entry == EmptyFile(1, -1)
    requires FieldsRead(s.fields, HeaderValues(plain)[5 := -1])
    ensures Storable(s)
  {
    hide ParseInt, FieldTexts, FieldValues;
    assert HeaderValues(plain) == [1, 0, 0, 0, 1, 0, 0, 0, 0, 0, 0, 2, 0];
  }
}
