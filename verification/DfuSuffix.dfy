/** The USB DFU suffix: parsing, and the residue form of its CRC check
    (Appendix B of the USB Device Firmware Upgrade Specification 1.1). */
module DfuSuffix {
  import opened Bytes
  import opened Crc32
  import opened ShiftRegister
  import opened WordBits
  import opened Wrappers

  datatype Suffix = Suffix(
    bcdDevice: nat, productId: nat, vendorId: nat, bcdDfu: nat, length: byte, crc: bv32)

  datatype DfuError = TooShort | BadSignatureOrLength | CrcMismatch

  function Parse(data: seq<byte>, verifyCrc: bool): Result<Suffix, DfuError> {
    if |data| < 16 then Err(TooShort)
    else
      var s := data[|data| - 16..];
      var crc := LittleEndianWord(s, 12);
      if s[8..11] != [0x55, 0x46, 0x44] || s[11] != 16 then Err(BadSignatureOrLength)
      else if verifyCrc && crc != Checksum(data[..|data| - 4]) ^ 0xffffffff then Err(CrcMismatch)
      else Ok(Suffix(ReadLe16(s, 0), ReadLe16(s, 2), ReadLe16(s, 4), ReadLe16(s, 6), s[11], crc))
  }

  ghost predicate HasSuffix(data: seq<byte>) {
    && |data| >= 16
    && data[|data| - 8..|data| - 5] == [0x55, 0x46, 0x44]
    && data[|data| - 5] == 16
  }

  lemma XorZero(a: Register, b: Register)
    ensures Xor(a, b) == Zero() <==> a == b
  {
    if Xor(a, b) == Zero() {
      forall i | 0 <= i < 32 ensures a[i] == b[i] {
        assert !Xor(a, b)[i];
      }
    }
  }

  /** Appending a register's own value, least significant byte first, and only
      that value, brings the register to zero. */
  lemma SelfCancels(c: bv32, s: seq<byte>)
    requires |s| == 4
    ensures Update(c, s) == 0 <==> c == LittleEndianWord(s, 0)
  {
    hide Update, LittleEndianWord, BitsOf, Bits;
    var bits := BitsOf(s);
    LittleEndianBits(s);
    UpdateRefines(c, s);
    WordEqualsSerial(Bits(c), bits);
    assert Widen(bits) == bits;
    var x := Xor(Bits(c), bits);
    StepsOfZero(32);
    if x != Zero() {
      StepsNonzero(x, 32);
    }
    XorZero(Bits(c), bits);
    ZeroBits();
    if Bits(c) == bits {
      BitsInjective(c, LittleEndianWord(s, 0));
    }
    if Bits(Update(c, s)) == Zero() {
      BitsInjective(Update(c, s), 0);
    }
  }

  /** For every artifact: the suffix is accepted with its CRC exactly when the
      signature and length are right and the raw register, started at all ones
      and run over the whole file including the stored CRC, ends at zero. */
  lemma AcceptedIffResidueZero(data: seq<byte>)
    ensures Parse(data, true).Ok? <==> HasSuffix(data) && Update(0xffffffff, data) == 0
  {
    if |data| >= 16 {
      var n := |data|;
      assert data[n - 16..][8..11] == data[n - 8..n - 5] && data[n - 16..][11] == data[n - 5];
      StoredCrcMatches(data);
    }
  }

  /** The stored word equals the complemented checksum exactly at residue zero. */
  lemma StoredCrcMatches(data: seq<byte>)
    requires |data| >= 16
    ensures LittleEndianWord(data[|data| - 16..], 12) == Checksum(data[..|data| - 4]) ^ 0xffffffff
       <==> Update(0xffffffff, data) == 0
  {
    hide Update, LittleEndianWord, Checksum;
    var n := |data|;
    LastParts(data, n);
    StoredPartMatches(data, data[..n - 4], data[n - 4..], data[n - 16..]);
  }

  lemma LastParts(data: seq<byte>, n: nat)
    requires 16 <= n == |data|
    ensures data == data[..n - 4] + data[n - 4..] && data[n - 4..] == data[n - 16..][12..]
  {
  }

  lemma StoredPartMatches(data: seq<byte>, body: seq<byte>, tail: seq<byte>, suffix: seq<byte>)
    requires data == body + tail && |suffix| == 16 && tail == suffix[12..]
    ensures LittleEndianWord(suffix, 12) == Checksum(body) ^ 0xffffffff <==> Update(0xffffffff, data) == 0
  {
    hide Update, LittleEndianWord, Checksum;
    var c := Update(0xffffffff, body);
    UpdateSplits(0xffffffff, body, tail);
    SelfCancels(c, tail);
    SameWord(suffix, 12, tail);
    Complemented(body, c);
  }

  /** The checksum is the complemented register, so complementing it gives the register. */
  lemma Complemented(body: seq<byte>, c: bv32)
    requires c == Update(0xffffffff, body)
    ensures Checksum(body) ^ 0xffffffff == c
  {
  }

  /** The word as the four bytes that store it, least significant first. */
  function LittleEndianBytes(w: bv32): (s: seq<byte>)
    ensures |s| == 4
  {
    var bits := Bits(w);
    [ByteOf(bits[..8]), ByteOf(bits[8..16]), ByteOf(bits[16..24]), ByteOf(bits[24..])]
  }

  lemma StoredBits(w: bv32, s: seq<byte>)
    requires s == LittleEndianBytes(w)
    ensures BitsOf(s) == Bits(w)
  {
    hide Word, LowBits, ByteOf;
    var bits := Bits(w);
    FourBytes(s);
    ByteOfBits(bits[..8]);
    ByteOfBits(bits[8..16]);
    ByteOfBits(bits[16..24]);
    ByteOfBits(bits[24..]);
    assert bits == bits[..8] + (bits[8..16] + (bits[16..24] + bits[24..]));
  }

  /** Storing and reading a word. */
  lemma StoredWordReadsBack(w: bv32)
    ensures LittleEndianWord(LittleEndianBytes(w), 0) == w
  {
    hide Bits, BitsOf, LittleEndianWord;
    var s := LittleEndianBytes(w);
    StoredBits(w, s);
    LittleEndianBits(s);
    BitsInjective(LittleEndianWord(s, 0), w);
  }

  lemma FourBytesInjective(s: seq<byte>, t: seq<byte>)
    requires |s| == |t| == 4 && LittleEndianWord(s, 0) == LittleEndianWord(t, 0)
    ensures s == t
  {
    hide LittleEndianWord;
    LittleEndianBits(s);
    LittleEndianBits(t);
    BitsOfInjective(s, t);
  }

  /** Everything before the stored CRC, with the right signature and length. */
  ghost predicate HasSuffixFields(body: seq<byte>) {
    |body| >= 12 && body[|body| - 4..|body| - 1] == [0x55, 0x46, 0x44] && body[|body| - 1] == 16
  }

  /** Appending the complemented checksum of any such content, least significant byte
      first, makes an accepted artifact, and appending any other four bytes does not. */
  lemma AppendedCrcAccepted(body: seq<byte>, s: seq<byte>)
    requires HasSuffixFields(body) && |s| == 4
    ensures Parse(body + s, true).Ok? <==> s == LittleEndianBytes(Checksum(body) ^ 0xffffffff)
  {
    hide Update, LittleEndianWord, LittleEndianBytes, Checksum;
    var (data, c) := (body + s, Update(0xffffffff, body));
    AcceptedIffResidueZero(data);
    assert data[|data| - 8..|data| - 5] == body[|body| - 4..|body| - 1];
    UpdateSplits(0xffffffff, body, s);
    SelfCancels(c, s);
    Complemented(body, c);
    StoredWordReadsBack(c);
    if LittleEndianWord(s, 0) == c {
      FourBytesInjective(s, LittleEndianBytes(c));
    }
  }

  /** A burst of at most 32 bits anywhere in an accepted artifact, its suffix and its
      stored CRC included, is never accepted. */
  lemma DamagedArtifactRejected(data: seq<byte>, damaged: seq<byte>, first: nat, last: nat)
    requires Parse(data, true).Ok? && data != damaged
    requires DifferOnlyWithin(data, damaged, first, last) && last - first <= 32
    ensures Parse(damaged, true).Err?
  {
    hide Update, DifferOnlyWithin;
    AcceptedIffResidueZero(data);
    AcceptedIffResidueZero(damaged);
    BurstDetected(0xffffffff, data, damaged, first, last);
  }

  lemma SameWord(s: seq<byte>, at: nat, tail: seq<byte>)
    requires at + 4 == |s| && tail == s[at..]
    ensures LittleEndianWord(s, at) == LittleEndianWord(tail, 0)
  {
    assert forall i :: 0 <= i < 4 ==> s[at + i] == tail[i];
  }
}
