/** Legacy U-Boot images: header parsing with both CRCs, and what a short burst
    of damage does to them. */
module UImage {
  import opened Bytes
  import opened Crc32
  import opened WordBits
  import opened Wrappers

  const MAGIC: nat := 0x27051956
  const HEADER_SIZE: nat := 64

  datatype Header = Header(
    headerCrc: nat, timestamp: nat, dataSize: nat, loadAddress: nat, entryPoint: nat, dataCrc: nat,
    os: byte, architecture: byte, imageType: byte, compression: byte, name: seq<byte>)

  datatype Image = Image(header: Header, payload: seq<byte>, trailer: seq<byte>)

  datatype UImageError = TooShort | BadMagic | TruncatedPayload | HeaderCrcMismatch | DataCrcMismatch

  /** The text before the first NUL, or all of it. */
  function UpToNul(s: seq<byte>): (t: seq<byte>)
    ensures t <= s
    ensures 0 !in t
    ensures |t| < |s| ==> s[|t|] == 0
  {
    if s == [] || s[0] == 0 then [] else [s[0]] + UpToNul(s[1..])
  }

  /** The header as the header CRC covers it: bytes 4 to 7 read as zero. */
  function Blanked(header: seq<byte>): (b: seq<byte>)
    requires |header| == HEADER_SIZE
    ensures |b| == HEADER_SIZE
  {
    header[..4] + [0, 0, 0, 0] + header[8..]
  }

  function ReadHeader(data: seq<byte>): Header
    requires |data| >= HEADER_SIZE
  {
    Header(ReadBe32(data, 4), ReadBe32(data, 8), ReadBe32(data, 12), ReadBe32(data, 16),
           ReadBe32(data, 20), ReadBe32(data, 24), data[28], data[29], data[30], data[31],
           UpToNul(data[32..64]))
  }

  function Parse(data: seq<byte>, verifyCrc: bool): Result<Image, UImageError> {
    if |data| < HEADER_SIZE then Err(TooShort)
    else if ReadBe32(data, 0) != MAGIC then Err(BadMagic)
    else
      var header := ReadHeader(data);
      var end := HEADER_SIZE + header.dataSize;
      if end > |data| then Err(TruncatedPayload)
      else
        var payload := data[HEADER_SIZE..end];
        if verifyCrc && WordValue(Checksum(Blanked(data[..HEADER_SIZE]))) != header.headerCrc then
          Err(HeaderCrcMismatch)
        else if verifyCrc && WordValue(Checksum(payload)) != header.dataCrc then Err(DataCrcMismatch)
        else Ok(Image(header, payload, data[end..]))
  }

  // Damage ---------------------------------------------------------------------

  lemma ByteBitsAt(s: seq<byte>, i: nat)
    requires i < |s|
    ensures BitsOf(s)[8 * i..8 * i + 8] == LowBits(Word(s[i]), 8)
  {
    hide BitsOf, LowBits, Word;
    BitsOfSlice(s, i, i + 1);
    assert s[i..i + 1] == [s[i]];
    BitsOfOne(s[i]);
  }

  lemma BitsOfOne(b: byte)
    ensures BitsOf([b]) == LowBits(Word(b), 8)
  {
    hide LowBits, Word;
    assert [b][1..] == [] && BitsOf([]) == [];
  }

  /** Bytes that the window does not touch are unchanged. */
  lemma UntouchedByte(a: seq<byte>, b: seq<byte>, first: nat, last: nat, i: nat)
    requires DifferOnlyWithin(a, b, first, last) && i < |a|
    requires 8 * i + 8 <= first || last <= 8 * i
    ensures a[i] == b[i]
  {
    ByteBitsAt(a, i);
    ByteBitsAt(b, i);
    forall j | 0 <= j < 8 ensures LowBits(Word(a[i]), 8)[j] == LowBits(Word(b[i]), 8)[j] {
      assert LowBits(Word(a[i]), 8)[j] == BitsOf(a)[8 * i..8 * i + 8][j] == BitsOf(a)[8 * i + j];
      assert LowBits(Word(b[i]), 8)[j] == BitsOf(b)[8 * i..8 * i + 8][j] == BitsOf(b)[8 * i + j];
    }
    ByteFromBits(a[i], b[i]);
  }

  /** A window bound, counted from the start of a range and cut to it. */
  function Clip(bit: nat, from: nat, to: nat): nat
    requires from <= to
  {
    if bit < 8 * from then 0 else if bit > 8 * to then 8 * (to - from) else bit - 8 * from
  }

  /** Restricting two messages to a range. */
  lemma DifferInSlice(a: seq<byte>, b: seq<byte>, first: nat, last: nat, from: nat, to: nat)
    requires DifferOnlyWithin(a, b, first, last) && from <= to <= |a|
    ensures DifferOnlyWithin(a[from..to], b[from..to], Clip(first, from, to), Clip(last, from, to))
    ensures Clip(last, from, to) - Clip(first, from, to) <= last - first
  {
    hide BitsOf;
    BitsOfSlice(a, from, to);
    BitsOfSlice(b, from, to);
    var (x, y) := (BitsOf(a[from..to]), BitsOf(b[from..to]));
    forall i | 0 <= i < 8 * (to - from) && !(Clip(first, from, to) <= i < Clip(last, from, to)) ensures x[i] == y[i] {
      assert x[i] == BitsOf(a)[8 * from + i] && y[i] == BitsOf(b)[8 * from + i];
    }
  }

  /** A difference before `end` shows in the header or in the payload. */
  lemma DifferInHeaderOrPayload(a: seq<byte>, b: seq<byte>, end: nat)
    requires |a| == |b| && HEADER_SIZE <= end <= |a| && a[..end] != b[..end]
    ensures a[..HEADER_SIZE] != b[..HEADER_SIZE] || a[HEADER_SIZE..end] != b[HEADER_SIZE..end]
  {
    assert a[..end] == a[..HEADER_SIZE] + a[HEADER_SIZE..end];
    assert b[..end] == b[..HEADER_SIZE] + b[HEADER_SIZE..end];
  }

  lemma Be32Injective(a: seq<byte>, b: seq<byte>, at: nat)
    requires at + 4 <= |a| && at + 4 <= |b| && ReadBe32(a, at) == ReadBe32(b, at)
    ensures forall i :: at <= i < at + 4 ==> a[i] == b[i]
  {
    SameHalves(ReadBe16(a, at), ReadBe16(a, at + 2), ReadBe16(b, at), ReadBe16(b, at + 2));
    SameOctets(a[at], a[at + 1], b[at], b[at + 1]);
    SameOctets(a[at + 2], a[at + 3], b[at + 2], b[at + 3]);
  }

  lemma SameHalves(high: nat, low: nat, high': nat, low': nat)
    requires low < U16 && low' < U16 && high * U16 + low == high' * U16 + low'
    ensures high == high' && low == low'
  {
  }

  lemma SameOctets(high: byte, low: byte, high': byte, low': byte)
    requires high as nat * 0x100 + low == high' as nat * 0x100 + low'
    ensures high == high' && low == low'
  {
  }

  lemma SameFieldElsewhere(a: seq<byte>, b: seq<byte>, first: nat, last: nat, at: nat)
    requires DifferOnlyWithin(a, b, first, last) && at + 4 <= |a|
    requires 8 * at + 32 <= first || last <= 8 * at
    ensures ReadBe32(a, at) == ReadBe32(b, at)
  {
    UntouchedByte(a, b, first, last, at);
    UntouchedByte(a, b, first, last, at + 1);
    UntouchedByte(a, b, first, last, at + 2);
    UntouchedByte(a, b, first, last, at + 3);
  }

  lemma ChecksumSeparates(a: seq<byte>, b: seq<byte>, first: nat, last: nat)
    requires DifferOnlyWithin(a, b, first, last) && last - first <= 32 && a != b
    ensures WordValue(Checksum(a)) != WordValue(Checksum(b))
  {
    BurstDetected(0xffffffff, a, b, first, last);
    if WordValue(Checksum(a)) == WordValue(Checksum(b)) {
      WordValueInjective(Checksum(a), Checksum(b));
      ComplementInjective(Update(0xffffffff, a), Update(0xffffffff, b));
    }
  }

  /** Blanking the CRC field keeps the differences outside it. */
  lemma BlankedDiffer(a: seq<byte>, b: seq<byte>, first: nat, last: nat)
    requires |a| == |b| == HEADER_SIZE && a != b
    requires DifferOnlyWithin(a, b, first, last) && (last <= 32 || 64 <= first)
    ensures DifferOnlyWithin(Blanked(a), Blanked(b), first, last)
    ensures Blanked(a) != Blanked(b)
  {
    hide BitsOf;
    BlankedBits(a);
    BlankedBits(b);
    if Blanked(a) == Blanked(b) {
      forall i | 0 <= i < HEADER_SIZE ensures a[i] == b[i] {
        if 4 <= i < 8 {
          UntouchedByte(a, b, first, last, i);
        } else {
          assert a[i] == Blanked(a)[i] && b[i] == Blanked(b)[i];
        }
      }
    }
  }

  lemma BlankedBits(a: seq<byte>)
    requires |a| == HEADER_SIZE
    ensures BitsOf(Blanked(a)) == BitsOf(a)[..32] + BitsOf([0, 0, 0, 0]) + BitsOf(a)[64..]
  {
    OverwrittenBits(a, [0, 0, 0, 0], Blanked(a));
  }

  lemma OverwrittenBits(a: seq<byte>, z: seq<byte>, b: seq<byte>)
    requires |a| == HEADER_SIZE && |z| == 4 && b == a[..4] + z + a[8..]
    ensures BitsOf(b) == BitsOf(a)[..32] + BitsOf(z) + BitsOf(a)[64..]
  {
    hide BitsOf;
    BitsOfConcat(a[..4] + z, a[8..]);
    BitsOfConcat(a[..4], z);
    BitsOfSlice(a, 0, 4);
    BitsOfSlice(a, 8, 64);
    assert a[0..4] == a[..4] && a[8..64] == a[8..];
  }

  /** Both checks, as what an accepted image satisfies. */
  lemma AcceptedIff(data: seq<byte>)
    ensures Parse(data, true).Ok? <==>
              && |data| >= HEADER_SIZE && ReadBe32(data, 0) == MAGIC
              && HEADER_SIZE + ReadBe32(data, 12) <= |data|
              && WordValue(Checksum(Blanked(data[..HEADER_SIZE]))) == ReadBe32(data, 4)
              && WordValue(Checksum(data[HEADER_SIZE..HEADER_SIZE + ReadBe32(data, 12)])) == ReadBe32(data, 24)
  {
    hide Checksum, Blanked;
  }

  /** A header that differs inside a window clear of the edges of its CRC field does
      not pass its check: the field or the checksum changes, but not both. */
  lemma DamagedHeaderFails(a: seq<byte>, b: seq<byte>, first: nat, last: nat)
    requires |a| == |b| == HEADER_SIZE && a != b
    requires DifferOnlyWithin(a, b, first, last) && last - first <= 32
    requires last <= 32 || 64 <= first || (32 <= first && last <= 64)
    requires WordValue(Checksum(Blanked(a))) == ReadBe32(a, 4)
    ensures WordValue(Checksum(Blanked(b))) != ReadBe32(b, 4)
  {
    if 32 <= first && last <= 64 {
      FieldDiffers(a, b, first, last);
    } else {
      SameFieldElsewhere(a, b, first, last, 4);
      BlankedDiffer(a, b, first, last);
      ChecksumSeparates(Blanked(a), Blanked(b), first, last);
    }
  }

  /** Differences inside the CRC field are blanked, and change the stored value. */
  lemma FieldDiffers(a: seq<byte>, b: seq<byte>, first: nat, last: nat)
    requires |a| == |b| == HEADER_SIZE && a != b
    requires DifferOnlyWithin(a, b, first, last) && 32 <= first && last <= 64
    ensures Blanked(a) == Blanked(b) && ReadBe32(a, 4) != ReadBe32(b, 4)
  {
    forall i | 0 <= i < HEADER_SIZE && !(4 <= i < 8) ensures a[i] == b[i] {
      UntouchedByte(a, b, first, last, i);
    }
    assert a[..4] == b[..4] && a[8..] == b[8..];
    var i :| 0 <= i < HEADER_SIZE && a[i] != b[i];
    if ReadBe32(a, 4) == ReadBe32(b, 4) {
      Be32Injective(a, b, 4);
      assert false;
    }
  }

  lemma SameLength(a: seq<byte>, b: seq<byte>, first: nat, last: nat)
    requires DifferOnlyWithin(a, b, first, last)
    ensures |a| == |b|
  {
  }

  /** Where the magic number survives, the window starts after it. */
  lemma WindowAfterMagic(data: seq<byte>, damaged: seq<byte>, first: nat, last: nat)
    requires DifferOnlyWithin(data, damaged, first, last) && 32 <= last && 4 <= |data|
    requires ReadBe32(data, 0) == ReadBe32(damaged, 0)
    ensures DifferOnlyWithin(data, damaged, 32, last)
  {
    Be32Injective(data, damaged, 0);
    assert data[0..4] == damaged[0..4];
    hide BitsOf;
    BitsOfSlice(data, 0, 4);
    BitsOfSlice(damaged, 0, 4);
    forall i | 0 <= i < 8 * |data| && !(32 <= i < last) ensures BitsOf(data)[i] == BitsOf(damaged)[i] {
      if i < 32 {
        assert BitsOf(data)[i] == BitsOf(data)[0..32][i] && BitsOf(damaged)[i] == BitsOf(damaged)[0..32][i];
      }
    }
  }

  /** Header and payload of an image, which is what its CRCs cover. */
  function Covered(data: seq<byte>): (c: seq<byte>)
    requires Parse(data, true).Ok?
    ensures HEADER_SIZE <= |c| && c <= data
  {
    data[..HEADER_SIZE + ReadBe32(data, 12)]
  }

  /** An accepted image whose header or payload a burst of at most 32 bits has damaged,
      anywhere or across the edges, is never accepted, unless the burst runs out of the
      header CRC field into the timestamp. */
  lemma DamagedImageRejected(data: seq<byte>, damaged: seq<byte>, first: nat, last: nat)
    requires Parse(data, true).Ok? && !(Covered(data) <= damaged)
    requires DifferOnlyWithin(data, damaged, first, last) && last - first <= 32
    requires last <= 64 || 64 <= first
    ensures Parse(damaged, true).Err?
  {
    hide Checksum, Blanked, BitsOf, ReadBe32, WordValue;
    var end := HEADER_SIZE + ReadBe32(data, 12);
    AcceptedIff(data);
    AcceptedIff(damaged);
    hide Parse, DifferOnlyWithin;
    assert |data| == |damaged| by {
      SameLength(data, damaged, first, last);
    }
    assert data[..end] != damaged[..end];
    if first < 32 < last {
      if Parse(damaged, true).Ok? {
        WindowAfterMagic(data, damaged, first, last);
        DamageShows(data, damaged, 32, last, end);
      }
    } else {
      DamageShows(data, damaged, first, last, end);
    }
  }

  lemma SamePrefix(a: seq<byte>, b: seq<byte>, end: nat)
    requires HEADER_SIZE <= end <= |a| && a[..end] <= b
    ensures a[..HEADER_SIZE] == b[..HEADER_SIZE] && a[HEADER_SIZE..end] == b[HEADER_SIZE..end]
    ensures forall at: nat :: at + 4 <= HEADER_SIZE ==> ReadBe32(a, at) == ReadBe32(b, at)
  {
    assert a[..HEADER_SIZE] == a[..end][..HEADER_SIZE] == b[..HEADER_SIZE];
    assert a[HEADER_SIZE..end] == a[..end][HEADER_SIZE..] == b[HEADER_SIZE..end];
  }

  /** What follows the payload is not checked. */
  lemma TrailerIsFree(data: seq<byte>, damaged: seq<byte>)
    requires Parse(data, true).Ok? && Covered(data) <= damaged
    ensures Parse(damaged, true).Ok?
  {
    hide Checksum, Blanked, WordValue;
    var end := HEADER_SIZE + ReadBe32(data, 12);
    AcceptedIff(data);
    AcceptedIff(damaged);
    SamePrefix(data, damaged, end);
    hide Parse, ReadBe32;
  }

  lemma DamageShows(data: seq<byte>, damaged: seq<byte>, first: nat, last: nat, end: nat)
    requires HEADER_SIZE <= end <= |data| == |damaged| && end == HEADER_SIZE + ReadBe32(data, 12)
    requires DifferOnlyWithin(data, damaged, first, last) && last - first <= 32 && data[..end] != damaged[..end]
    requires last <= 32 || 64 <= first || (32 <= first && last <= 64)
    requires WordValue(Checksum(Blanked(data[..HEADER_SIZE]))) == ReadBe32(data, 4)
    requires WordValue(Checksum(data[HEADER_SIZE..end])) == ReadBe32(data, 24)
    ensures WordValue(Checksum(Blanked(damaged[..HEADER_SIZE]))) != ReadBe32(damaged, 4)
         || (ReadBe32(damaged, 12) == ReadBe32(data, 12)
             && WordValue(Checksum(damaged[HEADER_SIZE..end])) != ReadBe32(damaged, 24))
  {
    hide Checksum, Blanked;
    var (a, b) := (data[..HEADER_SIZE], damaged[..HEADER_SIZE]);
    SameStart(data, a, HEADER_SIZE);
    SameStart(damaged, b, HEADER_SIZE);
    DifferInHeaderOrPayload(data, damaged, end);
    if a != b {
      DifferInSlice(data, damaged, first, last, 0, HEADER_SIZE);
      assert data[0..HEADER_SIZE] == a && damaged[0..HEADER_SIZE] == b;
      DamagedHeaderFails(a, b, Clip(first, 0, HEADER_SIZE), Clip(last, 0, HEADER_SIZE));
    } else {
      DifferInSlice(data, damaged, first, last, HEADER_SIZE, end);
      ChecksumSeparates(data[HEADER_SIZE..end], damaged[HEADER_SIZE..end],
                        Clip(first, HEADER_SIZE, end), Clip(last, HEADER_SIZE, end));
    }
  }

  /** The fields read from a prefix are those read from the whole. */
  lemma SameStart(data: seq<byte>, start: seq<byte>, n: nat)
    requires n <= |data| && start == data[..n]
    ensures forall at: nat :: at + 4 <= n ==> ReadBe32(start, at) == ReadBe32(data, at)
  {
  }
}
