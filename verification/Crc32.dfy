/** The CRC-32 of section 8 of RFC 1952: the streamer's bitwise loop on machine
    words, its refinement to the bit register of `ShiftRegister`, and burst
    detection on byte strings. */
module Crc32 {
  import opened Bytes
  import opened ShiftRegister
  import opened WordBits

  const POLYNOMIAL: bv32 := 0xedb88320

  /** One step of the register: divide by x, folding the generator back in. */
  function BitStep(c: bv32): bv32 {
    if c & 1 == 1 then (c >> 1) ^ POLYNOMIAL else c >> 1
  }

  function BitSteps(c: bv32, n: nat): bv32
    decreases n, c
  {
    if n == 0 then c else BitSteps(BitStep(c), n - 1)
  }

  function ByteStep(c: bv32, b: byte): bv32 {
    BitSteps(c ^ Word(b), 8)
  }

  function Update(c: bv32, bytes: seq<byte>): bv32
    decreases bytes
  {
    if bytes == [] then c else Update(ByteStep(c, bytes[0]), bytes[1..])
  }

  /** `zlib.crc32`: the register starts at all ones and is complemented. */
  function Checksum(bytes: seq<byte>): bv32 {
    Update(0xffffffff, bytes) ^ 0xffffffff
  }

  /** The branch-free step: the mask is all ones exactly when the low bit is set. */
  lemma MaskedStep(c: bv32)
    ensures (c >> 1) ^ (POLYNOMIAL & (0 - (c & 1))) == BitStep(c)
  {
    assert c & 1 == 0 || c & 1 == 1;
    if c & 1 == 1 {
      assert 0 - (c & 1) == 0xffffffff;
    } else {
      assert 0 - (c & 1) == 0;
    }
  }

  /** The streamer's loop over a prefix of a buffer. */
  method Crc32Update(initial: bv32, bytes: array<byte>, count: nat) returns (crc: bv32)
    requires count <= bytes.Length
    ensures crc == Update(initial, bytes[..count])
  {
    hide Word;
    crc := initial;
    var index := 0;
    while index < count
      invariant 0 <= index <= count
      invariant Update(crc, bytes[index..count]) == Update(initial, bytes[..count])
    {
      assert bytes[index..count][1..] == bytes[index + 1..count];
      ghost var target := ByteStep(crc, bytes[index]);
      crc := crc ^ Word(bytes[index]);
      var bit := 0;
      while bit < 8
        invariant 0 <= bit <= 8
        invariant BitSteps(crc, 8 - bit) == target
      {
        var mask: bv32 := 0 - (crc & 1);
        MaskedStep(crc);
        crc := (crc >> 1) ^ (POLYNOMIAL & mask);
        bit := bit + 1;
      }
      index := index + 1;
    }
  }

  lemma {:induction false} UpdateSplits(c: bv32, a: seq<byte>, b: seq<byte>)
    ensures Update(c, a + b) == Update(Update(c, a), b)
    decreases a
  {
    if a == [] {
      assert a + b == b;
    } else {
      assert (a + b)[1..] == a[1..] + b;
      UpdateSplits(ByteStep(c, a[0]), a[1..], b);
    }
  }

  // The machine-word register refines the bit register -------------------------

  lemma PolynomialBytes()
    ensures LowBits(0xedb88320, 8) == [false, false, false, false, false, true, false, false]
    ensures LowBits(0xedb883, 8) == [true, true, false, false, false, false, false, true]
    ensures LowBits(0xedb8, 8) == [false, false, false, true, true, true, false, true]
    ensures LowBits(0xed, 8) == [true, false, true, true, false, true, true, true]
  {
    NibblePair(0xedb88320, 0xedb8832);
    NibblePair(0xedb883, 0xedb88);
    NibblePair(0xedb8, 0xedb);
    NibblePair(0xed, 0xe);
    NibbleBits(0xedb88320);
    NibbleBits(0xedb8832);
    NibbleBits(0xedb883);
    NibbleBits(0xedb88);
    NibbleBits(0xedb8);
    NibbleBits(0xedb);
    NibbleBits(0xed);
    NibbleBits(0xe);
  }

  lemma PolynomialBits()
    ensures Bits(POLYNOMIAL) == Generator()
  {
    hide LowBits, ShiftedRight;
    ShiftedByBytes(POLYNOMIAL, 0xedb883, 0xedb8, 0xed);
    WordBytes(POLYNOMIAL);
    PolynomialBytes();
  }

  lemma StepRefines(c: bv32)
    ensures Bits(BitStep(c)) == Step(Bits(c))
  {
    HalfIsShift(c);
    if Low(c) {
      XorBits(Half(c), POLYNOMIAL, BitStep(c), 32);
      PolynomialBits();
    }
  }

  lemma {:induction false} StepsRefine(c: bv32, n: nat)
    ensures Bits(BitSteps(c, n)) == Steps(Bits(c), n)
    decreases n
  {
    if n > 0 {
      StepRefines(c);
      StepsRefine(BitStep(c), n - 1);
    }
  }

  lemma AddByte(c: bv32, w: bv32, x: bv32)
    requires x == c ^ w && w >> 8 == 0
    ensures Bits(x) == Xor(Bits(c), Widen(LowBits(w, 8)))
  {
    XorBits(c, w, x, 32);
    ByteBits(w);
  }

  lemma ByteStepRefines(c: bv32, b: byte)
    ensures Bits(ByteStep(c, b)) == Serial(Bits(c), LowBits(Word(b), 8))
  {
    WordIsShort(b);
    AddByte(c, Word(b), c ^ Word(b));
    StepsRefine(c ^ Word(b), 8);
    WordEqualsSerial(Bits(c), LowBits(Word(b), 8));
  }

  /** The byte-at-a-time loop on words computes the bit-serial register over the
      message bits, for any message and any initial register. */
  lemma {:induction false} UpdateRefines(c: bv32, bytes: seq<byte>)
    ensures Bits(Update(c, bytes)) == Serial(Bits(c), BitsOf(bytes))
    decreases bytes
  {
    if bytes != [] {
      ByteStepRefines(c, bytes[0]);
      SerialSplits(Bits(c), LowBits(Word(bytes[0]), 8), BitsOf(bytes[1..]));
      UpdateRefines(ByteStep(c, bytes[0]), bytes[1..]);
    }
  }

  // Burst detection ------------------------------------------------------------

  /** The messages agree on every bit outside positions `[first, last)`. */
  ghost predicate DifferOnlyWithin(a: seq<byte>, b: seq<byte>, first: nat, last: nat) {
    && |a| == |b|
    && first <= last <= 8 * |a|
    && forall i :: 0 <= i < 8 * |a| && !(first <= i < last) ==> BitsOf(a)[i] == BitsOf(b)[i]
  }

  /** Every burst of at most 32 bits changes the register, for messages of any
      length, any initial register and any alignment of the burst. */
  lemma BurstDetected(c: bv32, a: seq<byte>, b: seq<byte>, first: nat, last: nat)
    requires DifferOnlyWithin(a, b, first, last) && last - first <= 32
    requires a != b
    ensures Update(c, a) != Update(c, b)
  {
    if BitsOf(a) == BitsOf(b) {
      BitsOfInjective(a, b);
    }
    UpdateRefines(c, a);
    UpdateRefines(c, b);
    BurstSeparates(Bits(c), BitsOf(a), BitsOf(b), first, last);
  }
}
