/** The ASCII `newc` cpio format of the initramfs: entries, the bounded parser
    and the writer. */
module Newc {
  import opened Bytes
  import opened Hexadecimal
  import opened Text
  import opened Wrappers

  const MAX_ENTRIES: nat := 65536
  const MAX_NAME_BYTES: nat := 4096
  const MAGIC: seq<byte> := [0x30, 0x37, 0x30, 0x37, 0x30, 0x31]
  const CRC_MAGIC: seq<byte> := [0x30, 0x37, 0x30, 0x37, 0x30, 0x32]
  const TRAILER: seq<byte> := [0x54, 0x52, 0x41, 0x49, 0x4c, 0x45, 0x52, 0x21, 0x21, 0x21]

  datatype CpioEntry = CpioEntry(
    name: seq<byte>, inode: int, mode: int, uid: int, gid: int, nlink: int, mtime: int, data: seq<byte>,
    devMajor: int, devMinor: int, rdevMajor: int, rdevMinor: int)

  datatype NewcError =
    | EntryLimit | TruncatedHeader | BadMagic | NonHexField | FieldCount | BadNameLength | UnterminatedName
    | IndexOutOfRange | NameNotUtf8 | TruncatedPayload | ChecksumMismatch | TrailerPayload | UnsafeName
    | NoTrailer | TrailingData | DuplicateName | ValueRange

  // Names ----------------------------------------------------------------------

  /** `_validate_name`: relative, no NUL or backslash, no empty or dot components. */
  predicate ValidName(name: seq<byte>) {
    || name == [DOT]
    || (&& name != [] && NUL !in name && BACKSLASH !in name && name[0] != SLASH
        && forall part :: part in Split(name, SLASH) ==> part != [] && part != [DOT] && part != [DOT, DOT])
  }

  // Reading one record ---------------------------------------------------------

  datatype Record = Record(entry: CpioEntry, next: int)

  function Sum(s: seq<byte>): nat {
    if s == [] then 0 else s[0] as nat + Sum(s[1..])
  }

  /** A decoded header: whether it carries a checksum, and its thirteen fields. */
  datatype Header = Header(checked: bool, values: seq<int>)

  /** The texts of the fields: eight bytes each, as far as they go. */
  function FieldTexts(fields: seq<byte>): (texts: seq<seq<byte>>)
    ensures |fields| == 104 ==> |texts| == 13 && forall k :: 0 <= k < 13 ==> texts[k] == fields[8 * k..8 * k + 8]
  {
    seq((|fields| + 7) / 8, k requires 0 <= k < (|fields| + 7) / 8 => Slice(fields, 8 * k, 8 * k + 8))
  }

  predicate Numeric(text: seq<byte>) {
    ParseInt(text).Some?
  }

  predicate AllNumeric(texts: seq<seq<byte>>) {
    forall k :: 0 <= k < |texts| ==> Numeric(texts[k])
  }

  function FieldValues(texts: seq<seq<byte>>): (values: seq<int>)
    requires AllNumeric(texts)
    ensures |values| == |texts| && forall k :: 0 <= k < |texts| ==> ParseInt(texts[k]) == Some(values[k])
  {
    seq(|texts|, k requires 0 <= k < |texts| => assert Numeric(texts[k]); ParseInt(texts[k]).value)
  }

  function ReadHeader(magic: seq<byte>, fields: seq<byte>): (r: Result<Header, NewcError>)
    ensures r.Ok? ==> |r.value.values| == 13
  {
    if magic != MAGIC && magic != CRC_MAGIC then Err(BadMagic)
    else if !AllNumeric(FieldTexts(fields)) then Err(NonHexField)
    else if |FieldTexts(fields)| != 13 then Err(FieldCount)
    else Ok(Header(magic == CRC_MAGIC, FieldValues(FieldTexts(fields))))
  }

  function EntryOf(v: seq<int>, name: seq<byte>, payload: seq<byte>): CpioEntry
    requires |v| == 13
  {
    CpioEntry(name, v[0], v[1], v[2], v[3], v[4], v[5], payload, v[7], v[8], v[9], v[10])
  }

  /** The byte before an end, which may count from the end of the data. */
  function LastByte(data: seq<byte>, end: int): byte
    requires -|data| < end <= |data|
  {
    if end > 0 then data[end - 1] else data[|data| + end - 1]
  }

  /** The name and payload that follow a header, in the parser's order of checks. A
      negative size puts the end of the payload before its start. */
  function ReadBody(data: seq<byte>, nameStart: int, h: Header): Result<Record, NewcError>
    requires |h.values| == 13
  {
    var filesize := h.values[6];
    var namesize := h.values[11];
    var nameEnd := nameStart + namesize;
    var dataEnd := Align4(nameEnd) + filesize;
    if namesize < 1 || namesize > MAX_NAME_BYTES then Err(BadNameLength)
    else if nameEnd > |data| then Err(UnterminatedName)
    else if nameEnd <= -|data| then Err(IndexOutOfRange)
    else if LastByte(data, nameEnd) != 0 then Err(UnterminatedName)
    else if !Utf8(Slice(data, nameStart, nameEnd - 1)) then Err(NameNotUtf8)
    else if dataEnd > |data| then Err(TruncatedPayload)
    else
      var payload := Slice(data, Align4(nameEnd), dataEnd);
      if h.checked && Sum(payload) % U32 != h.values[12] then Err(ChecksumMismatch)
      else Ok(Record(EntryOf(h.values, Slice(data, nameStart, nameEnd - 1), payload), Align4(dataEnd)))
  }

  function ReadRecord(data: seq<byte>, offset: int): Result<Record, NewcError> {
    if offset + 110 > |data| then Err(TruncatedHeader)
    else
      var h :- ReadHeader(Slice(data, offset, offset + 6), Slice(data, offset + 6, offset + 110));
      ReadBody(data, offset + 110, h)
  }

  // Reading a whole image ------------------------------------------------------

  /** `data[offset:]` */
  function From(data: seq<byte>, offset: int): seq<byte> {
    data[Bound(|data|, offset)..]
  }

  /** The parser's loop over any record reader: what it returns when `entries` have
      been read and the next record is at `offset`. The entry limit bounds it. */
  function Scan(read: int -> Result<Record, NewcError>, blank: int -> bool, offset: int, entries: seq<CpioEntry>)
    : Result<seq<CpioEntry>, NewcError>
    decreases MAX_ENTRIES - |entries|
  {
    if blank(offset) then Err(NoTrailer)
    else if |entries| >= MAX_ENTRIES then Err(EntryLimit)
    else
      var r :- read(offset);
      if r.entry.name == TRAILER then
        if r.entry.data != [] then Err(TrailerPayload)
        else if blank(r.next) then Ok(entries) else Err(TrailingData)
      else if !ValidName(r.entry.name) then Err(UnsafeName)
      else Scan(read, blank, r.next, entries + [r.entry])
  }

  function Reader(data: seq<byte>): int -> Result<Record, NewcError> {
    (offset: int) => ReadRecord(data, offset)
  }

  /** Nothing but NUL padding, or nothing at all, from an offset on. */
  function Blank(data: seq<byte>): int -> bool {
    (offset: int) => AllZero(From(data, offset))
  }

  function ParseRecords(data: seq<byte>): Result<seq<CpioEntry>, NewcError> {
    Scan(Reader(data), Blank(data), 0, [])
  }

  /** The parser's loop. A record may lead back to an earlier offset; the entry limit
      still ends the loop. */
  method ParseEntries(data: seq<byte>) returns (result: Result<seq<CpioEntry>, NewcError>)
    ensures result == ParseRecords(data)
  {
    var offset := 0;
    var entries: seq<CpioEntry> := [];
    while offset < |data|
      invariant |entries| <= MAX_ENTRIES
      invariant Scan(Reader(data), Blank(data), offset, entries) == ParseRecords(data)
      decreases MAX_ENTRIES - |entries|
    {
      if AllZero(From(data, offset)) {
        break;
      }
      if |entries| >= MAX_ENTRIES {
        return Err(EntryLimit);
      }
      var read := ReadRecord(data, offset);
      if read.Err? {
        return Err(read.error);
      }
      var entry := read.value.entry;
      offset := read.value.next;
      if entry.name == TRAILER {
        if entry.data != [] {
          return Err(TrailerPayload);
        }
        if !AllZero(From(data, offset)) {
          return Err(TrailingData);
        }
        return Ok(entries);
      }
      if !ValidName(entry.name) {
        return Err(UnsafeName);
      }
      entries := entries + [entry];
    }
    return Err(NoTrailer);
  }

  // Writing --------------------------------------------------------------------

  function Pad512(length: nat): (n: nat)
    ensures n < 512 && (length + n) % 512 == 0
  {
    (512 - length % 512) % 512
  }

  function HeaderValues(e: CpioEntry): (v: seq<int>)
    ensures |v| == 13
  {
    [e.inode, e.mode, e.uid, e.gid, e.nlink, e.mtime, |e.data|,
     e.devMajor, e.devMinor, e.rdevMajor, e.rdevMinor, |e.name| + 1, 0]
  }

  predicate Fits(v: int) {
    0 <= v < U32
  }

  predicate Encodable(e: CpioEntry) {
    && Fits(e.inode) && Fits(e.mode) && Fits(e.uid) && Fits(e.gid) && Fits(e.nlink) && Fits(e.mtime)
    && Fits(|e.data|) && Fits(e.devMajor) && Fits(e.devMinor) && Fits(e.rdevMajor) && Fits(e.rdevMinor)
    && Fits(|e.name| + 1)
  }

  lemma EncodableMeansFits(e: CpioEntry)
    ensures Encodable(e) <==> forall k :: 0 <= k < 13 ==> Fits(HeaderValues(e)[k])
  {
    var v := HeaderValues(e);
    assert v[0] == e.inode && v[1] == e.mode && v[2] == e.uid && v[3] == e.gid && v[4] == e.nlink;
    assert v[5] == e.mtime && v[6] == |e.data| && v[7] == e.devMajor && v[8] == e.devMinor;
    assert v[9] == e.rdevMajor && v[10] == e.rdevMinor && v[11] == |e.name| + 1 && v[12] == 0;
  }

  function HexFields(values: seq<int>): (h: seq<byte>)
    requires forall k :: 0 <= k < |values| ==> Fits(values[k])
    ensures |h| == 8 * |values| && AllHex(h)
  {
    if values == [] then []
    else
      assert Fits(values[|values| - 1]);
      HexFields(values[..|values| - 1]) + Hex(values[|values| - 1], 8)
  }

  /** The magic, the fields, and the terminated name. */
  function RecordStart(e: CpioEntry): (s: seq<byte>)
    requires Encodable(e)
    ensures |s| == 110 + |e.name| + 1
  {
    EncodableMeansFits(e);
    MAGIC + HexFields(HeaderValues(e)) + (e.name + [0])
  }

  /** One record, at an offset that is a multiple of four. */
  function RecordBytes(e: CpioEntry): (r: seq<byte>)
    requires Encodable(e)
    ensures |r| % 4 == 0 && |r| > 110
  {
    AlignedSum(|Padded(RecordStart(e))|, |Padded(e.data)|);
    Padded(RecordStart(e)) + Padded(e.data)
  }

  method AppendFields(output: seq<byte>, values: seq<int>) returns (result: Result<seq<byte>, NewcError>)
    ensures if forall k :: 0 <= k < |values| ==> Fits(values[k])
            then result == Ok(output + HexFields(values)) else result == Err(ValueRange)
  {
    var out := output;
    var k := 0;
    while k < |values|
      invariant 0 <= k <= |values|
      invariant forall j :: 0 <= j < k ==> Fits(values[j])
      invariant out == output + HexFields(values[..k])
    {
      if !(0 <= values[k] <= 0xffff_ffff) {
        return Err(ValueRange);
      }
      assert values[..k + 1][..k] == values[..k];
      out := out + Hex(values[k], 8);
      k := k + 1;
    }
    assert values[..|values|] == values;
    return Ok(out);
  }

  /** Extends the output, and then pads it, as the writer does twice per record. */
  method AppendPadded(output: seq<byte>, s: seq<byte>) returns (out: seq<byte>)
    requires |output| % 4 == 0
    ensures out == output + Padded(s)
  {
    out := output + s;
    AlignedPads(|output|, |s|);
    out := out + Zeros(Pad4(|out|));
    assert Zeros(Pad4(|output + s|)) == Zeros(Pad4(|s|));
  }

  method AppendEntry(output: seq<byte>, e: CpioEntry) returns (result: Result<seq<byte>, NewcError>)
    requires |output| % 4 == 0
    ensures result == if Encodable(e) then Ok(output + RecordBytes(e)) else Err(ValueRange)
  {
    EncodableMeansFits(e);
    hide Encodable, HexFields, Fits;
    var fields := AppendFields(MAGIC, HeaderValues(e));
    if fields.Err? {
      return Err(ValueRange);
    }
    var out := AppendPadded(output, fields.value + (e.name + [0]));
    AlignedSum(|output|, |Padded(RecordStart(e))|);
    var full := AppendPadded(out, e.data);
    assert full == output + RecordBytes(e);
    return Ok(full);
  }

  function MaxInode(entries: seq<CpioEntry>): int {
    if entries == [] then 0
    else
      var last := entries[|entries| - 1].inode;
      if |entries| == 1 then last
      else
        var m := MaxInode(entries[..|entries| - 1]);
        if last > m then last else m
  }

  function TrailerEntry(inode: int): CpioEntry {
    CpioEntry(TRAILER, inode, 0, 0, 0, 1, 0, [], 0, 0, 0, 0)
  }

  function Records(entries: seq<CpioEntry>): (r: seq<byte>)
    requires forall i :: 0 <= i < |entries| ==> Encodable(entries[i])
    ensures |r| % 4 == 0
  {
    if entries == [] then []
    else
      var before := Records(entries[..|entries| - 1]);
      var last := RecordBytes(entries[|entries| - 1]);
      AlignedSum(|before|, |last|);
      before + last
  }

  predicate Writable(entries: seq<CpioEntry>) {
    && (forall i :: 0 <= i < |entries| ==> Encodable(entries[i]))
    && Encodable(TrailerEntry(MaxInode(entries) + 1))
  }

  function BlockPadded(s: seq<byte>): (p: seq<byte>)
    ensures |p| % 512 == 0 && s <= p && AllZero(p[|s|..])
  {
    s + Zeros(Pad512(|s|))
  }

  /** The whole image: the records, the trailer, and padding to a 512-byte block. */
  function ImageBytes(entries: seq<CpioEntry>): (image: seq<byte>)
    requires Writable(entries)
    ensures |image| % 512 == 0
  {
    BlockPadded(Records(entries) + RecordBytes(TrailerEntry(MaxInode(entries) + 1)))
  }

  lemma RecordsGrow(entries: seq<CpioEntry>, i: nat)
    requires i < |entries| && forall j :: 0 <= j <= i ==> Encodable(entries[j])
    ensures Records(entries[..i + 1]) == Records(entries[..i]) + RecordBytes(entries[i])
  {
    assert entries[..i + 1][..i] == entries[..i];
  }

  method AppendEntries(entries: seq<CpioEntry>) returns (result: Result<seq<byte>, NewcError>)
    ensures if forall j :: 0 <= j < |entries| ==> Encodable(entries[j])
            then result == Ok(Records(entries)) else result == Err(ValueRange)
  {
    var output: seq<byte> := [];
    var i := 0;
    while i < |entries|
      invariant 0 <= i <= |entries|
      invariant forall j :: 0 <= j < i ==> Encodable(entries[j])
      invariant output == Records(entries[..i])
    {
      var r := AppendEntry(output, entries[i]);
      if r.Err? {
        return Err(ValueRange);
      }
      RecordsGrow(entries, i);
      output := r.value;
      i := i + 1;
    }
    assert entries[..|entries|] == entries;
    return Ok(output);
  }

  /** The writer: it fails exactly when some value does not fit its field. */
  method ToBytes(entries: seq<CpioEntry>) returns (result: Result<seq<byte>, NewcError>)
    ensures result == if Writable(entries) then Ok(ImageBytes(entries)) else Err(ValueRange)
    ensures result.Ok? ==> |result.value| % 512 == 0
  {
    var records := AppendEntries(entries);
    if records.Err? {
      return Err(ValueRange);
    }
    var r := AppendEntry(records.value, TrailerEntry(MaxInode(entries) + 1));
    if r.Err? {
      return Err(ValueRange);
    }
    return Ok(BlockPadded(r.value));
  }
}
