/** DFU suffixes and uImage headers by their bytes: exactly what is read from an artifact,
    and artifacts written for any contents that read back as them. */
module WrittenContainers {
  import opened Bytes
  import opened Crc32
  import DfuSuffix
  import opened StoredNumbers
  import UImage
  import opened WordBits
  import opened Wrappers

  // Machine words ------------------------------------------------------------------------

  /** The value of a stored word is the number its bytes give, lowest first. */
  lemma StoredValue(s: seq<byte>)
    requires |s| == 4
    ensures WordAt(s, 0, WordValue(LittleEndianWord(s, 0)))
  {
    hide LittleEndianWord, Bits, LowBits, Word, Number, PowerOfTwo;
    var (b0, b1) := (LowBits(Word(s[0]), 8), LowBits(Word(s[1]), 8));
    var (b2, b3) := (LowBits(Word(s[2]), 8), LowBits(Word(s[3]), 8));
    LittleEndianBits(s);
    FourBytes(s);
    NumberJoined(b0, b1 + (b2 + b3));
    NumberJoined(b1, b2 + b3);
    NumberJoined(b2, b3);
    NumberOfByte(s[0]);
    NumberOfByte(s[1]);
    NumberOfByte(s[2]);
    NumberOfByte(s[3]);
    EightBits();
  }

  lemma EightBits()
    ensures PowerOfTwo(8) == 0x100
  {
  }

  lemma WordAtSuffix(data: seq<byte>, at: nat, s: seq<byte>, v: nat)
    requires at + 4 <= |data| && s == data[at..at + 4]
    ensures WordAt(s, 0, v) <==> WordAt(data, at, v)
  {
  }

  /** A machine word stands at an offset exactly when its value does. */
  lemma WordStandsIff(data: seq<byte>, at: nat, w: bv32)
    requires at + 4 <= |data|
    ensures LittleEndianWord(data, at) == w <==> WordAt(data, at, WordValue(w))
  {
    hide LittleEndianWord, WordAt;
    var (s, u) := (data[at..at + 4], LittleEndianWord(data, at));
    SameLittleEndian(data, at, s);
    StoredValue(s);
    WordAtSuffix(data, at, s, WordValue(u));
    if WordAt(data, at, WordValue(w)) {
      OneWord(data, at, WordValue(w), WordValue(u));
      WordValueInjective(w, u);
    }
  }

  lemma SameLittleEndian(data: seq<byte>, at: nat, s: seq<byte>)
    requires at + 4 <= |data| && s == data[at..at + 4]
    ensures LittleEndianWord(data, at) == LittleEndianWord(s, 0)
  {
  }

  lemma OneWord(data: seq<byte>, at: nat, v: nat, w: nat)
    requires WordAt(data, at, v) && WordAt(data, at, w)
    ensures v == w
  {
  }

  // DFU suffixes ---------------------------------------------------------------------------

  /** The last sixteen bytes: four half words, `UFD`, the length 16, and a word. */
  ghost predicate SuffixStands(data: seq<byte>, s: DfuSuffix.Suffix) {
    var n := |data|;
    && n >= 16 && HalfAt(data, n - 16, s.bcdDevice) && HalfAt(data, n - 14, s.productId)
    && HalfAt(data, n - 12, s.vendorId) && HalfAt(data, n - 10, s.bcdDfu)
    && data[n - 8] == 0x55 && data[n - 7] == 0x46 && data[n - 6] == 0x44 && data[n - 5] == 16 == s.length
    && WordAt(data, n - 4, WordValue(s.crc))
  }

  lemma HalfInTail(data: seq<byte>, tail: seq<byte>, at: nat, v: nat)
    requires |data| >= 16 && tail == data[|data| - 16..] && at + 2 <= 16
    ensures ReadLe16(tail, at) == v <==> HalfAt(data, |data| - 16 + at, v)
  {
  }

  lemma WordInTail(data: seq<byte>, tail: seq<byte>)
    requires |data| >= 16 && tail == data[|data| - 16..]
    ensures LittleEndianWord(tail, 12) == LittleEndianWord(data, |data| - 4)
  {
  }

  /** Exactly what is read from an artifact. */
  lemma SuffixReadIff(data: seq<byte>, verifyCrc: bool, s: DfuSuffix.Suffix)
    ensures DfuSuffix.Parse(data, verifyCrc) == Ok(s) <==>
            SuffixStands(data, s) && (verifyCrc ==> s.crc == Checksum(data[..|data| - 4]) ^ 0xffffffff)
  {
    hide LittleEndianWord, Checksum, HalfAt, WordAt, WordValue, ReadLe16;
    if |data| >= 16 {
      var (n, tail) := (|data|, data[|data| - 16..]);
      HalfInTail(data, tail, 0, s.bcdDevice);
      HalfInTail(data, tail, 2, s.productId);
      HalfInTail(data, tail, 4, s.vendorId);
      HalfInTail(data, tail, 6, s.bcdDfu);
      WordInTail(data, tail);
      WordStandsIff(data, n - 4, s.crc);
      SignatureInTail(data, tail);
    }
  }

  lemma SignatureInTail(data: seq<byte>, tail: seq<byte>)
    requires |data| >= 16 && tail == data[|data| - 16..]
    ensures tail[8..11] == [0x55, 0x46, 0x44] <==>
            data[|data| - 8] == 0x55 && data[|data| - 7] == 0x46 && data[|data| - 6] == 0x44
    ensures tail[11] == data[|data| - 5]
  {
    assert tail[8..11] == [tail[8], tail[9], tail[10]];
  }

  /** An artifact with these numbers in its suffix. */
  function SuffixedFields(body: seq<byte>, bcdDevice: nat, productId: nat, vendorId: nat, bcdDfu: nat): seq<byte> {
    body + Le16(bcdDevice) + Le16(productId) + Le16(vendorId) + Le16(bcdDfu) + [0x55, 0x46, 0x44, 16]
  }

  function Suffixed(body: seq<byte>, bcdDevice: nat, productId: nat, vendorId: nat, bcdDfu: nat): seq<byte> {
    var fields := SuffixedFields(body, bcdDevice, productId, vendorId, bcdDfu);
    fields + DfuSuffix.LittleEndianBytes(Checksum(fields) ^ 0xffffffff)
  }

  lemma FieldsStand(data: seq<byte>, body: seq<byte>, bcdDevice: nat, productId: nat, vendorId: nat, bcdDfu: nat,
                    crc: seq<byte>)
    requires bcdDevice < U16 && productId < U16 && vendorId < U16 && bcdDfu < U16 && |crc| == 4
    requires data == SuffixedFields(body, bcdDevice, productId, vendorId, bcdDfu) + crc
    ensures var n := |data|;
      && n == |body| + 16 && HalfAt(data, n - 16, bcdDevice) && HalfAt(data, n - 14, productId)
      && HalfAt(data, n - 12, vendorId) && HalfAt(data, n - 10, bcdDfu)
      && data[n - 8] == 0x55 && data[n - 7] == 0x46 && data[n - 6] == 0x44 && data[n - 5] == 16
      && data[..n - 4] == SuffixedFields(body, bcdDevice, productId, vendorId, bcdDfu) && data[n - 4..n] == crc
  {
    hide HalfAt, Le16;
    var n := |data|;
    assert At(data, n - 16, Le16(bcdDevice)) && At(data, n - 14, Le16(productId));
    assert At(data, n - 12, Le16(vendorId)) && At(data, n - 10, Le16(bcdDfu));
    HalfStands(data, n - 16, bcdDevice);
    HalfStands(data, n - 14, productId);
    HalfStands(data, n - 12, vendorId);
    HalfStands(data, n - 10, bcdDfu);
  }

  /** Any contents with any numbers in the suffix are accepted and read back as these. */
  lemma SuffixRoundTrip(body: seq<byte>, bcdDevice: nat, productId: nat, vendorId: nat, bcdDfu: nat)
    requires bcdDevice < U16 && productId < U16 && vendorId < U16 && bcdDfu < U16
    ensures var crc := Checksum(SuffixedFields(body, bcdDevice, productId, vendorId, bcdDfu)) ^ 0xffffffff;
      DfuSuffix.Parse(Suffixed(body, bcdDevice, productId, vendorId, bcdDfu), true)
      == Ok(DfuSuffix.Suffix(bcdDevice, productId, vendorId, bcdDfu, 16, crc))
  {
    hide LittleEndianWord, Checksum, HalfAt, WordAt, WordValue, SuffixedFields, DfuSuffix.Parse,
         DfuSuffix.LittleEndianBytes;
    var data := Suffixed(body, bcdDevice, productId, vendorId, bcdDfu);
    var crc := Checksum(SuffixedFields(body, bcdDevice, productId, vendorId, bcdDfu)) ^ 0xffffffff;
    var stored := DfuSuffix.LittleEndianBytes(crc);
    FieldsStand(data, body, bcdDevice, productId, vendorId, bcdDfu, stored);
    var n := |data|;
    DfuSuffix.StoredWordReadsBack(crc);
    SameLittleEndian(data, n - 4, stored);
    WordStandsIff(data, n - 4, crc);
    SuffixReadIff(data, true, DfuSuffix.Suffix(bcdDevice, productId, vendorId, bcdDfu, 16, crc));
  }

  // uImage headers -------------------------------------------------------------------------

  /** The text before the first NUL, or all of it. */
  ghost predicate NameOf(field: seq<byte>, name: seq<byte>) {
    name <= field && 0 !in name && (|name| == |field| || field[|name|] == 0)
  }

  lemma NameIff(field: seq<byte>, name: seq<byte>)
    ensures UImage.UpToNul(field) == name <==> NameOf(field, name)
  {
    if NameOf(field, name) {
      OneName(field, name, UImage.UpToNul(field));
    }
  }

  lemma OneName(field: seq<byte>, s: seq<byte>, t: seq<byte>)
    requires NameOf(field, s) && NameOf(field, t)
    ensures s == t
  {
  }

  /** The 64 bytes of the header: words with the highest byte first, four single bytes,
      and 32 bytes of name. */
  ghost predicate HeaderStands(data: seq<byte>, h: UImage.Header) {
    && |data| >= 64 && BigWordAt(data, 0, 0x27051956) && BigWordAt(data, 4, h.headerCrc)
    && BigWordAt(data, 8, h.timestamp) && BigWordAt(data, 12, h.dataSize) && BigWordAt(data, 16, h.loadAddress)
    && BigWordAt(data, 20, h.entryPoint) && BigWordAt(data, 24, h.dataCrc)
    && data[28] == h.os && data[29] == h.architecture && data[30] == h.imageType && data[31] == h.compression
    && NameOf(data[32..64], h.name)
  }

  /** The header's own CRC is that of the header with zeros in its place. */
  ghost predicate ChecksHold(data: seq<byte>, image: UImage.Image)
    requires |data| >= 64
  {
    && image.header.headerCrc == WordValue(Checksum(data[..4] + [0, 0, 0, 0] + data[8..64]))
    && image.header.dataCrc == WordValue(Checksum(image.payload))
  }

  /** Exactly what is read from an image. */
  lemma ImageReadIff(data: seq<byte>, verifyCrc: bool, image: UImage.Image)
    ensures UImage.Parse(data, verifyCrc) == Ok(image) <==>
            && HeaderStands(data, image.header) && |image.payload| == image.header.dataSize
            && data == data[..64] + image.payload + image.trailer && (verifyCrc ==> ChecksHold(data, image))
  {
    hide Checksum, WordValue, BigWordAt, UImage.UpToNul, NameOf, ReadBe32;
    if |data| >= 64 {
      var h := image.header;
      BigWordIff(data, 0, 0x27051956);
      BigWordIff(data, 4, h.headerCrc);
      BigWordIff(data, 8, h.timestamp);
      BigWordIff(data, 12, h.dataSize);
      BigWordIff(data, 16, h.loadAddress);
      BigWordIff(data, 20, h.entryPoint);
      BigWordIff(data, 24, h.dataCrc);
      NameIff(data[32..64], h.name);
      SameHeader(data);
      PayloadIs(data, 64 + h.dataSize, image.payload, image.trailer);
    }
  }

  lemma SameHeader(data: seq<byte>)
    requires |data| >= 64
    ensures UImage.Blanked(data[..64]) == data[..4] + [0, 0, 0, 0] + data[8..64]
  {
    assert data[..64][..4] == data[..4] && data[..64][8..] == data[8..64];
  }

  lemma PayloadIs(data: seq<byte>, end: nat, payload: seq<byte>, trailer: seq<byte>)
    requires 64 <= end && 64 <= |data|
    ensures |payload| == end - 64 && data == data[..64] + payload + trailer <==>
            end <= |data| && payload == data[64..end] && trailer == data[end..]
  {
    if |payload| == end - 64 && data == data[..64] + payload + trailer {
      assert |data| == end + |trailer|;
      assert data[64..end] == payload && data[end..] == trailer;
    }
    if end <= |data| {
      assert data == data[..64] + data[64..end] + data[end..];
    }
  }

  /** What follows the header CRC. */
  function HeaderRest(h: UImage.Header): (b: seq<byte>)
    requires |h.name| <= 32
    ensures |b| == 56
  {
    Be32(h.timestamp) + (Be32(h.dataSize) + (Be32(h.loadAddress) + (Be32(h.entryPoint) + (Be32(h.dataCrc)
    + ([h.os, h.architecture, h.imageType, h.compression] + (h.name + Zeros(32 - |h.name|)))))))
  }

  /** A header with this CRC. */
  function HeaderBytes(h: UImage.Header, headerCrc: nat): (b: seq<byte>)
    requires |h.name| <= 32
    ensures |b| == 64
  {
    Be32(0x2705_1956) + (Be32(headerCrc) + HeaderRest(h))
  }

  /** The header of a payload, with its size and both CRCs. */
  function Completed(h: UImage.Header, payload: seq<byte>): UImage.Header
    requires |h.name| <= 32
  {
    var sized := h.(dataSize := |payload|, dataCrc := WordValue(Checksum(payload)));
    sized.(headerCrc := WordValue(Checksum(HeaderBytes(sized, 0))))
  }

  /** An image of this payload, and what follows it. */
  function Written(h: UImage.Header, payload: seq<byte>, trailer: seq<byte>): seq<byte>
    requires |h.name| <= 32
  {
    var header := Completed(h, payload);
    HeaderBytes(header, header.headerCrc) + payload + trailer
  }

  predicate FieldsFit(h: UImage.Header) {
    && h.headerCrc < U32 && h.timestamp < U32 && h.dataSize < U32 && h.loadAddress < U32 && h.entryPoint < U32
    && h.dataCrc < U32
  }

  lemma HeaderBytesStand(data: seq<byte>, h: UImage.Header)
    requires |h.name| <= 32 && 0 !in h.name && FieldsFit(h)
    requires |data| >= 64 && data[..64] == HeaderBytes(h, h.headerCrc)
    ensures HeaderStands(data, h)
  {
    hide BigWordAt, Be32, NameOf, HeaderRest, At;
    StartStands(data, HeaderBytes(h, h.headerCrc));
    AtSplits(data, 0, Be32(0x2705_1956), Be32(h.headerCrc) + HeaderRest(h));
    AtSplits(data, 4, Be32(h.headerCrc), HeaderRest(h));
    BigWordStands(data, 0, 0x2705_1956);
    BigWordStands(data, 4, h.headerCrc);
    RestStands(data, h);
  }

  lemma StartStands(data: seq<byte>, b: seq<byte>)
    requires |b| <= |data| && data[..|b|] == b
    ensures At(data, 0, b)
  {
  }

  lemma RestStands(data: seq<byte>, h: UImage.Header)
    requires |h.name| <= 32 && 0 !in h.name && FieldsFit(h) && |data| >= 64 && At(data, 8, HeaderRest(h))
    ensures BigWordAt(data, 8, h.timestamp) && BigWordAt(data, 12, h.dataSize) && BigWordAt(data, 16, h.loadAddress)
    ensures BigWordAt(data, 20, h.entryPoint) && BigWordAt(data, 24, h.dataCrc)
    ensures data[28] == h.os && data[29] == h.architecture && data[30] == h.imageType && data[31] == h.compression
    ensures NameOf(data[32..64], h.name)
  {
    hide BigWordAt, Be32, NameOf, At;
    var name := h.name + Zeros(32 - |h.name|);
    var tags := [h.os, h.architecture, h.imageType, h.compression] + name;
    var crc := Be32(h.dataCrc) + tags;
    var entry := Be32(h.entryPoint) + crc;
    var load := Be32(h.loadAddress) + entry;
    var size := Be32(h.dataSize) + load;
    AtSplits(data, 8, Be32(h.timestamp), size);
    AtSplits(data, 12, Be32(h.dataSize), load);
    AtSplits(data, 16, Be32(h.loadAddress), entry);
    AtSplits(data, 20, Be32(h.entryPoint), crc);
    AtSplits(data, 24, Be32(h.dataCrc), tags);
    AtSplits(data, 28, [h.os, h.architecture, h.imageType, h.compression], name);
    hide HeaderRest;
    BigWordStands(data, 8, h.timestamp);
    BigWordStands(data, 12, h.dataSize);
    BigWordStands(data, 16, h.loadAddress);
    BigWordStands(data, 20, h.entryPoint);
    BigWordStands(data, 24, h.dataCrc);
    TagsStand(data, [h.os, h.architecture, h.imageType, h.compression], name);
    NamePadded(data[32..64], h.name);
  }

  lemma TagsStand(data: seq<byte>, tags: seq<byte>, name: seq<byte>)
    requires |tags| == 4 && |name| == 32 && At(data, 28, tags) && At(data, 32, name)
    ensures data[28] == tags[0] && data[29] == tags[1] && data[30] == tags[2] && data[31] == tags[3]
    ensures data[32..64] == name
  {
    assert data[28..32] == tags;
    assert data[28] == data[28..32][0] && data[29] == data[28..32][1];
    assert data[30] == data[28..32][2] && data[31] == data[28..32][3];
  }

  lemma NamePadded(field: seq<byte>, name: seq<byte>)
    requires |name| <= 32 && 0 !in name && field == name + Zeros(32 - |name|)
    ensures NameOf(field, name)
  {
  }

  lemma BlankHeader(data: seq<byte>, h: UImage.Header)
    requires |h.name| <= 32 && |data| >= 64 && data[..64] == HeaderBytes(h, h.headerCrc)
    ensures data[..4] + [0, 0, 0, 0] + data[8..64] == HeaderBytes(h, 0)
  {
    assert Be32(0) == [0, 0, 0, 0];
    hide Be32, HeaderRest;
    var (magic, crc, rest) := (Be32(0x2705_1956), Be32(h.headerCrc), HeaderRest(h));
    var b := magic + (crc + rest);
    assert data[..4] == data[..64][..4] == b[..4] == magic;
    assert data[8..64] == data[..64][8..] == b[8..] == rest;
    assert magic + ([0, 0, 0, 0] + rest) == magic + [0, 0, 0, 0] + rest;
  }

  /** Any header, payload and trailer are written as an image that is accepted and read
      back as these. */
  lemma ImageRoundTrip(h: UImage.Header, payload: seq<byte>, trailer: seq<byte>)
    requires |h.name| <= 32 && 0 !in h.name && |payload| < U32
    requires h.timestamp < U32 && h.loadAddress < U32 && h.entryPoint < U32
    ensures UImage.Parse(Written(h, payload, trailer), true)
         == Ok(UImage.Image(Completed(h, payload), payload, trailer))
  {
    hide HeaderBytes, WordValue, Checksum, HeaderStands, UImage.Parse;
    var (data, header) := (Written(h, payload, trailer), Completed(h, payload));
    assert data[..64] == HeaderBytes(header, header.headerCrc);
    HeaderBytesStand(data, header);
    BlankHeader(data, header);
    SameBlank(h.(dataSize := |payload|, dataCrc := header.dataCrc), header);
    ImageReadIff(data, true, UImage.Image(header, payload, trailer));
  }

  lemma SameBlank(a: UImage.Header, b: UImage.Header)
    requires |a.name| <= 32 && b == a.(headerCrc := b.headerCrc)
    ensures HeaderBytes(a, 0) == HeaderBytes(b, 0)
  {
  }
}
