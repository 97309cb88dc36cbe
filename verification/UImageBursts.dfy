/** Damage to a uImage header as an exclusive or: exactly which damage its CRC misses,
    and a burst that it misses in every image. */
module UImageBursts {
  import opened Bytes
  import opened Crc32
  import opened ShiftRegister
  import opened UImage
  import opened WordBits

  // Damage as exclusive or ---------------------------------------------------------

  function Flip(x: byte, d: byte): byte {
    ByteOf(Xor(LowBits(Word(x), 8), LowBits(Word(d), 8)))
  }

  /** The bytes with the bits of `d` flipped. */
  function Flipped(a: seq<byte>, d: seq<byte>): (b: seq<byte>)
    requires |a| == |d|
    ensures |b| == |a| && forall i :: 0 <= i < |a| ==> b[i] == Flip(a[i], d[i])
  {
    seq(|a|, i requires 0 <= i < |a| => Flip(a[i], d[i]))
  }

  lemma FlipBits(x: byte, d: byte)
    ensures LowBits(Word(Flip(x, d)), 8) == Xor(LowBits(Word(x), 8), LowBits(Word(d), 8))
  {
    ByteOfBits(Xor(LowBits(Word(x), 8), LowBits(Word(d), 8)));
  }

  lemma WordOfZero()
    ensures Word(0) == 0 && AllFalse(LowBits(Word(0), 8))
  {
    LowBitsOfZero(8);
  }

  lemma FlipByZero(x: byte)
    ensures Flip(x, 0) == x
  {
    hide Word, LowBits;
    WordOfZero();
    FlipBits(x, 0);
    assert Xor(LowBits(Word(x), 8), LowBits(Word(0), 8)) == LowBits(Word(x), 8);
    ByteFromBits(Flip(x, 0), x);
  }

  /** Flipping twice undoes it: two strings differ by their exclusive or. */
  lemma FlipByDifference(x: byte, y: byte)
    ensures Flip(x, Flip(x, y)) == y
  {
    hide Word, LowBits, Flip;
    FlipBits(x, y);
    FlipBits(x, Flip(x, y));
    assert Xor(LowBits(Word(x), 8), Xor(LowBits(Word(x), 8), LowBits(Word(y), 8))) == LowBits(Word(y), 8);
    ByteFromBits(Flip(x, Flip(x, y)), y);
  }

  lemma FlippedByDifference(a: seq<byte>, b: seq<byte>)
    requires |a| == |b|
    ensures Flipped(a, Flipped(a, b)) == b
  {
    hide Flip;
    forall i | 0 <= i < |a| ensures Flipped(a, Flipped(a, b))[i] == b[i] {
      FlipByDifference(a[i], b[i]);
    }
  }

  lemma XorJoined(a: seq<bool>, b: seq<bool>, c: seq<bool>, d: seq<bool>)
    requires |a| == |c| && |b| == |d|
    ensures Xor(a + b, c + d) == Xor(a, c) + Xor(b, d)
  {
  }

  lemma {:induction false} FlippedBits(a: seq<byte>, d: seq<byte>)
    requires |a| == |d|
    ensures BitsOf(Flipped(a, d)) == Xor(BitsOf(a), BitsOf(d))
    decreases |a|
  {
    hide Word, LowBits, Flip;
    if a != [] {
      assert Flipped(a, d)[1..] == Flipped(a[1..], d[1..]);
      FlippedBits(a[1..], d[1..]);
      FlipBits(a[0], d[0]);
      XorJoined(LowBits(Word(a[0]), 8), BitsOf(a[1..]), LowBits(Word(d[0]), 8), BitsOf(d[1..]));
    }
  }

  // The header check -----------------------------------------------------------------

  /** The stored CRC, least significant byte first. */
  function FieldBytes(h: seq<byte>): (f: seq<byte>)
    requires |h| == HEADER_SIZE
    ensures |f| == 4
  {
    [h[7], h[6], h[5], h[4]]
  }

  lemma NumberAfterByte(b: byte, rest: seq<bool>)
    ensures Number(LowBits(Word(b), 8) + rest) == b + 256 * Number(rest)
  {
    hide LowBits, Word, Number;
    NumberJoined(LowBits(Word(b), 8), rest);
    NumberOfByte(b);
    assert PowerOfTwo(8) == 256;
  }

  lemma NumberOfField(h: seq<byte>)
    requires |h| == HEADER_SIZE
    ensures Number(BitsOf(FieldBytes(h))) == ReadBe32(h, 4)
  {
    hide LowBits, Word, Number;
    var f := FieldBytes(h);
    assert f[1..] == [h[6], h[5], h[4]] && f[1..][1..] == [h[5], h[4]];
    assert f[1..][1..][1..] == [h[4]] && f[1..][1..][1..][1..] == [];
    NumberAfterByte(h[7], BitsOf(f[1..]));
    NumberAfterByte(h[6], BitsOf(f[1..][1..]));
    NumberAfterByte(h[5], BitsOf([h[4]]));
    NumberAfterByte(h[4], []);
    NoBits();
  }

  lemma NoBits()
    ensures Number([]) == 0 && BitsOf([]) == []
  {
  }

  lemma FieldMatches(w: bv32, h: seq<byte>)
    requires |h| == HEADER_SIZE
    ensures WordValue(w) == ReadBe32(h, 4) <==> Bits(w) == BitsOf(FieldBytes(h))
  {
    hide Bits, BitsOf, ReadBe32, Number;
    NumberOfField(h);
    if WordValue(w) == ReadBe32(h, 4) {
      NumberInjective(Bits(w), BitsOf(FieldBytes(h)));
    }
  }

  ghost predicate Passes(h: seq<byte>)
    requires |h| == HEADER_SIZE
  {
    WordValue(Checksum(Blanked(h))) == ReadBe32(h, 4)
  }

  /** The damage changes the CRC, without its initial value, as it changes the field. */
  ghost predicate Undetected(d: seq<byte>)
    requires |d| == HEADER_SIZE
  {
    WordValue(Update(0, Blanked(d))) == ReadBe32(d, 4)
  }

  lemma XorExchanges(a: Register, b: Register, ones: Register)
    ensures Xor(Xor(a, b), ones) == Xor(Xor(a, ones), b)
  {
  }

  lemma XorWithZero(a: Register)
    ensures Xor(a, Zero()) == a
  {
  }

  lemma UpdateFlipped(c: bv32, a: seq<byte>, d: seq<byte>)
    requires |a| == |d|
    ensures Bits(Update(c, Flipped(a, d))) == Xor(Bits(Update(c, a)), Bits(Update(0, d)))
  {
    hide Update, BitsOf, Bits, Serial, Flipped;
    UpdateRefines(c, Flipped(a, d));
    UpdateRefines(c, a);
    UpdateRefines(0, d);
    FlippedBits(a, d);
    ZeroBits();
    SerialLinear(Bits(c), Zero(), BitsOf(a), BitsOf(d));
    XorWithZero(Bits(c));
  }

  lemma ChecksumBits(a: seq<byte>)
    ensures Bits(Checksum(a)) == Xor(Bits(Update(0xffffffff, a)), Bits(0xffffffff))
  {
    hide Update, LowBits;
    XorBits(Update(0xffffffff, a), 0xffffffff, Checksum(a), 32);
  }

  lemma ChecksumFlipped(a: seq<byte>, d: seq<byte>)
    requires |a| == |d|
    ensures Bits(Checksum(Flipped(a, d))) == Xor(Bits(Checksum(a)), Bits(Update(0, d)))
  {
    hide Update, Checksum, Bits, Flipped;
    ChecksumBits(a);
    ChecksumBits(Flipped(a, d));
    UpdateFlipped(0xffffffff, a, d);
    XorExchanges(Bits(Update(0xffffffff, a)), Bits(Update(0, d)), Bits(0xffffffff));
  }

  lemma BlankedFlipped(a: seq<byte>, d: seq<byte>)
    requires |a| == |d| == HEADER_SIZE
    ensures Blanked(Flipped(a, d)) == Flipped(Blanked(a), Blanked(d))
    ensures FieldBytes(Flipped(a, d)) == Flipped(FieldBytes(a), FieldBytes(d))
  {
    hide Flip;
    FlipByZero(0);
  }

  lemma SameFlip(w: Register, x: Register, f: Register)
    ensures Xor(w, x) == Xor(w, f) <==> x == f
  {
    if Xor(w, x) == Xor(w, f) {
      forall i | 0 <= i < 32 ensures x[i] == f[i] {
        assert Xor(w, x)[i] == Xor(w, f)[i];
      }
    }
  }

  /** Whether damage to a header that passes goes undetected depends on the damage
      alone, and is exactly this condition. */
  lemma PassesIff(a: seq<byte>, d: seq<byte>)
    requires |a| == |d| == HEADER_SIZE && Passes(a)
    ensures Passes(Flipped(a, d)) <==> Undetected(d)
  {
    hide Update, Checksum, Bits, BitsOf, Blanked, Flipped, FieldBytes, ReadBe32, WordValue, Xor;
    FieldMatches(Checksum(Blanked(a)), a);
    FieldMatches(Checksum(Blanked(Flipped(a, d))), Flipped(a, d));
    FieldMatches(Update(0, Blanked(d)), d);
    BlankedFlipped(a, d);
    ChecksumFlipped(Blanked(a), Blanked(d));
    FlippedBits(FieldBytes(a), FieldBytes(d));
    SameFlip(BitsOf(FieldBytes(a)), Bits(Update(0, Blanked(d))), BitsOf(FieldBytes(d)));
  }

  // Whole images ---------------------------------------------------------------------

  /** Outside these bytes nothing is damaged. */
  predicate Within(d: seq<byte>, from: nat, to: nat) {
    forall i :: 0 <= i < |d| && !(from <= i < to) ==> d[i] == 0
  }

  lemma FieldsKept(a: seq<byte>, d: seq<byte>, at: nat)
    requires |a| == |d| && Within(d, 4, 12) && 12 <= at && at + 4 <= |a|
    ensures ReadBe32(Flipped(a, d), at) == ReadBe32(a, at)
  {
    hide Flip;
    FlipByZero(a[at]);
    FlipByZero(a[at + 1]);
    FlipByZero(a[at + 2]);
    FlipByZero(a[at + 3]);
  }

  lemma MagicKept(a: seq<byte>, d: seq<byte>)
    requires |a| == |d| && Within(d, 4, 12) && 4 <= |a|
    ensures ReadBe32(Flipped(a, d), 0) == ReadBe32(a, 0)
  {
    hide Flip;
    FlipByZero(a[0]);
    FlipByZero(a[1]);
    FlipByZero(a[2]);
    FlipByZero(a[3]);
  }

  /** An accepted image whose CRC field and timestamp are damaged is accepted exactly
      when the damage changes the CRC as it changes the field. */
  lemma FieldDamageAcceptedIff(data: seq<byte>, d: seq<byte>, damaged: seq<byte>)
    requires Parse(data, true).Ok? && |d| == HEADER_SIZE <= |data| && Within(d, 4, 12)
    requires damaged == Flipped(data[..HEADER_SIZE], d) + data[HEADER_SIZE..]
    ensures Parse(damaged, true).Ok? <==> Undetected(d)
  {
    hide Checksum, Update, Blanked, Flipped, ReadBe32, WordValue, Within;
    AcceptedIff(data);
    AcceptedIff(damaged);
    hide Parse;
    var (a, b) := (data[..HEADER_SIZE], damaged[..HEADER_SIZE]);
    assert b == Flipped(a, d);
    SameStart(data, a, HEADER_SIZE);
    SameStart(damaged, b, HEADER_SIZE);
    MagicKept(a, d);
    FieldsKept(a, d, 12);
    FieldsKept(a, d, 24);
    PassesIff(a, d);
    var end := HEADER_SIZE + ReadBe32(data, 12);
    assert damaged[HEADER_SIZE..end] == data[HEADER_SIZE..end];
  }

  lemma FlipBySelf(x: byte)
    ensures Flip(x, x) == 0
  {
    hide Word, LowBits;
    WordOfZero();
    FlipBits(x, x);
    assert LowBits(Word(Flip(x, x)), 8) == LowBits(Word(0), 8);
    ByteFromBits(Flip(x, x), 0);
  }

  /** The exclusive or of two headers. */
  function DamageOf(data: seq<byte>, damaged: seq<byte>): (d: seq<byte>)
    requires HEADER_SIZE <= |data| == |damaged|
    ensures |d| == HEADER_SIZE
  {
    Flipped(data[..HEADER_SIZE], damaged[..HEADER_SIZE])
  }

  lemma CrossingDamage(data: seq<byte>, damaged: seq<byte>, first: nat, last: nat)
    requires DifferOnlyWithin(data, damaged, first, last) && last - first <= 32 && first < 64 < last
    requires HEADER_SIZE <= |data|
    ensures Within(DamageOf(data, damaged), 4, 12) && data[HEADER_SIZE..] == damaged[HEADER_SIZE..]
  {
    hide DifferOnlyWithin, Flip;
    assert |data| == |damaged| by {
      SameLength(data, damaged, first, last);
    }
    forall i | 0 <= i < |data| && !(4 <= i < 12) ensures data[i] == damaged[i] {
      UntouchedByte(data, damaged, first, last, i);
    }
    var d := DamageOf(data, damaged);
    forall i | 0 <= i < HEADER_SIZE && !(4 <= i < 12) ensures d[i] == 0 {
      FlipBySelf(data[i]);
    }
  }

  /** Exactly which bursts an accepted image survives: those that leave its header and
      payload as they were, and those that run from the CRC field into the timestamp and
      change the CRC as they change the field. */
  lemma DamagedImageAcceptedIff(data: seq<byte>, damaged: seq<byte>, first: nat, last: nat)
    requires Parse(data, true).Ok?
    requires DifferOnlyWithin(data, damaged, first, last) && last - first <= 32
    ensures HEADER_SIZE <= |data| == |damaged|
    ensures Parse(damaged, true).Ok? <==>
              Covered(data) <= damaged || (first < 64 < last && Undetected(DamageOf(data, damaged)))
  {
    hide DifferOnlyWithin, Undetected, Parse;
    AcceptedHasHeader(data);
    SameLength(data, damaged, first, last);
    if Covered(data) <= damaged {
      TrailerIsFree(data, damaged);
    } else if first < 64 < last {
      CrossingAcceptedIff(data, damaged, first, last);
    } else {
      DamagedImageRejected(data, damaged, first, last);
    }
  }

  lemma AcceptedHasHeader(data: seq<byte>)
    requires Parse(data, true).Ok?
    ensures HEADER_SIZE <= |data|
  {
  }

  lemma CrossingAcceptedIff(data: seq<byte>, damaged: seq<byte>, first: nat, last: nat)
    requires Parse(data, true).Ok? && HEADER_SIZE <= |data| == |damaged|
    requires DifferOnlyWithin(data, damaged, first, last) && last - first <= 32 && first < 64 < last
    ensures Parse(damaged, true).Ok? <==> Undetected(DamageOf(data, damaged))
  {
    hide DifferOnlyWithin, Undetected, Flipped, Parse, Within;
    CrossingDamage(data, damaged, first, last);
    var (a, b) := (data[..HEADER_SIZE], damaged[..HEADER_SIZE]);
    FlippedByDifference(a, b);
    assert damaged == b + damaged[HEADER_SIZE..];
    FieldDamageAcceptedIff(data, DamageOf(data, damaged), damaged);
  }

  // A burst that every image survives --------------------------------------------------

  /** Four zero bits. */
  function NibbleStep(c: bv32): bv32 {
    BitStep(BitStep(BitStep(BitStep(c))))
  }

  /** A zero byte. */
  function TwoNibbles(c: bv32): bv32 {
    NibbleStep(NibbleStep(c))
  }

  lemma FourBits(c: bv32, n: nat)
    requires n >= 4
    ensures BitSteps(c, n) == BitSteps(NibbleStep(c), n - 4)
  {
    hide BitStep;
    var (c1, c2, c3) := (BitStep(c), BitStep(BitStep(c)), BitStep(BitStep(BitStep(c))));
    assert BitSteps(c, n) == BitSteps(c1, n - 1) == BitSteps(c2, n - 2) == BitSteps(c3, n - 3);
  }

  lemma ZeroByte(c: bv32, x: bv32)
    requires x == c
    ensures ByteStep(x, 0) == TwoNibbles(c)
  {
    hide NibbleStep, BitSteps, Word;
    WordOfZero();
    XorNothing(c);
    FourBits(c, 8);
    FourBits(NibbleStep(c), 4);
    NoBitSteps(TwoNibbles(c));
  }

  lemma XorNothing(c: bv32)
    ensures c ^ 0 == c
  {
  }

  lemma NoBitSteps(c: bv32)
    ensures BitSteps(c, 0) == c
  {
  }

  lemma ZeroFirst(c: bv32, n: nat)
    requires n > 0
    ensures Update(c, Zeros(n)) == Update(TwoNibbles(c), Zeros(n - 1))
  {
    hide TwoNibbles, ByteStep;
    ZeroByte(c, c);
    assert Zeros(n)[0] == 0 && Zeros(n)[1..] == Zeros(n - 1);
  }

  lemma FiveZeros(c: bv32, d: bv32, n: nat)
    requires d == TwoNibbles(TwoNibbles(TwoNibbles(TwoNibbles(TwoNibbles(c))))) && n >= 5
    ensures Update(c, Zeros(n)) == Update(d, Zeros(n - 5))
  {
    hide TwoNibbles, Update;
    ZeroFirst(c, n);
    ZeroFirst(TwoNibbles(c), n - 1);
    ZeroFirst(TwoNibbles(TwoNibbles(c)), n - 2);
    ZeroFirst(TwoNibbles(TwoNibbles(TwoNibbles(c))), n - 3);
    ZeroFirst(TwoNibbles(TwoNibbles(TwoNibbles(TwoNibbles(c)))), n - 4);
  }

  /** The register after 55 zeros, five bytes at a time. */
  lemma AfterZeros()
    ensures Update(0x9e6495a3, Zeros(55)) == 0x50eb7b25
  {
    AfterSomeZeros();
    AfterMoreZeros();
    assert Update(0x50eb7b25, Zeros(0)) == 0x50eb7b25;
  }

  lemma AfterSomeZeros()
    ensures Update(0x9e6495a3, Zeros(55)) == Update(0xd8c37b26, Zeros(30))
  {
    hide Update;
    FiveZeros(0x9e6495a3, 0x1d0530b8, 55);
    FiveZeros(0x1d0530b8, 0x293b1583, 50);
    FiveZeros(0x293b1583, 0xfdf9f875, 45);
    FiveZeros(0xfdf9f875, 0x69e78658, 40);
    FiveZeros(0x69e78658, 0xd8c37b26, 35);
  }

  lemma AfterMoreZeros()
    ensures Update(0xd8c37b26, Zeros(30)) == Update(0x50eb7b25, Zeros(0))
  {
    hide Update;
    FiveZeros(0xd8c37b26, 0x28b79a37, 30);
    FiveZeros(0x28b79a37, 0x5cb02369, 25);
    FiveZeros(0x5cb02369, 0xf5f5f9a4, 20);
    FiveZeros(0xf5f5f9a4, 0xa40dc4b8, 15);
    FiveZeros(0xa40dc4b8, 0x1b2bd03a, 10);
    FiveZeros(0x1b2bd03a, 0x50eb7b25, 5);
  }

  /** 31 bits of damage, from the fifth bit of the stored CRC into the timestamp. */
  const BURST: seq<byte> := [0, 0, 0, 0, 0x50, 0xeb, 0x7b, 0x25, 7]

  function Damage(): (d: seq<byte>)
    ensures |d| == HEADER_SIZE && Within(d, 4, 12)
  {
    BURST + Zeros(55)
  }

  lemma {:induction false} LeadingZeros(n: nat, rest: seq<byte>)
    ensures Update(0, Zeros(n) + rest) == Update(0, rest)
    decreases n
  {
    hide ByteStep;
    if n == 0 {
      assert Zeros(0) + rest == rest;
    } else {
      assert (Zeros(n) + rest)[0] == 0 && (Zeros(n) + rest)[1..] == Zeros(n - 1) + rest;
      ZeroByte(0, 0);
      assert TwoNibbles(0) == 0;
      LeadingZeros(n - 1, rest);
    }
  }

  lemma FirstByte(c: bv32, x: bv32)
    requires c == 7 && x == c
    ensures BitSteps(x, 8) == 0x9e6495a3
  {
    hide NibbleStep, BitSteps;
    FourBits(c, 8);
    FourBits(NibbleStep(c), 4);
    NoBitSteps(TwoNibbles(c));
    Nibbles7();
  }

  lemma Nibbles7()
    ensures TwoNibbles(7) == 0x9e6495a3
  {
  }

  lemma AfterSeven(rest: seq<byte>, zeros: seq<byte>)
    requires rest == [7] + zeros
    ensures Update(0, rest) == Update(0x9e6495a3, zeros)
  {
    hide BitSteps;
    WordOfSeven();
    FirstByte(7, 0 ^ Word(7));
    assert rest[1..] == zeros;
  }

  lemma WordOfSeven()
    ensures Word(7) == 7 && 0 ^ Word(7) == 7
  {
    assert Digits(0, 5) == 0;
    assert Digits(1, 6) == 1 && Digits(3, 7) == 3;
  }

  lemma DamageRegister()
    ensures Update(0, Blanked(Damage())) == 0x50eb7b25
  {
    hide Update, Zeros, Blanked, Damage;
    BlankedDamage();
    LeadingZeros(8, [7] + Zeros(55));
    AfterSeven([7] + Zeros(55), Zeros(55));
    AfterZeros();
  }

  lemma BlankedDamage()
    ensures Blanked(Damage()) == Zeros(8) + ([7] + Zeros(55))
  {
    assert Damage()[..4] == Zeros(4) && Damage()[8..] == [7] + Zeros(55);
  }

  lemma DamageUndetected()
    ensures Undetected(Damage())
  {
    hide Update, WordValue, ReadBe32, BitsOf, Bits;
    DamageRegister();
    var s: seq<byte> := [0x25, 0x7b, 0xeb, 0x50];
    assert FieldBytes(Damage()) == s;
    LittleEndianBits(s);
    StoredField(s);
    FieldMatches(0x50eb7b25, Damage());
  }

  lemma StoredField(s: seq<byte>)
    requires s == [0x25, 0x7b, 0xeb, 0x50]
    ensures LittleEndianWord(s, 0) == 0x50eb7b25
  {
    assert Word(0x25) == 0x25 && Word(0x7b) == 0x7b && Word(0xeb) == 0xeb && Word(0x50) == 0x50;
  }

  lemma DamageBit(d: seq<byte>, k: nat, j: nat)
    requires d == Damage() && k < HEADER_SIZE && j < 8
    requires (k == 4 ==> j < 4) && (k == 8 ==> 3 <= j) && !(5 <= k < 8)
    ensures !LowBits(Word(d[k]), 8)[j]
  {
    hide LowBits, Word;
    if k == 4 || k == 8 {
      OuterBits();
      var (five, seven) := (LowBits(Word(0x50), 8), LowBits(Word(7), 8));
      assert k == 4 ==> five[..4][j] == five[j];
      assert k == 8 ==> seven[3..][j - 3] == seven[j];
    } else {
      assert d[k] == 0;
      WordOfZero();
    }
  }

  lemma BitsOfDamage(k: nat, j: nat)
    requires k < HEADER_SIZE && j < 8 && !(36 <= 8 * k + j < 67)
    ensures !BitsOf(Damage())[8 * k + j]
  {
    hide BitsOf, Word, LowBits, Damage;
    var d := Damage();
    ByteBitsAt(d, k);
    assert BitsOf(d)[8 * k..8 * k + 8][j] == BitsOf(d)[8 * k + j];
    DamageBit(d, k, j);
  }

  lemma OuterBits()
    ensures AllFalse(LowBits(Word(0x50), 8)[..4]) && AllFalse(LowBits(Word(7), 8)[3..]) && LowBits(Word(7), 8)[0]
  {
    WordOfSeven();
    NibblePair(0x50, 5);
    NibblePair(7, 0);
    NibbleBits(0x50);
    NibbleBits(7);
    NibbleBits(0);
    assert Word(0x50) == 0x50;
  }

  lemma FlippedBitAt(a: seq<byte>, d: seq<byte>, tail: seq<byte>, i: nat)
    requires |a| == |d| && i < 8 * |a + tail|
    ensures BitsOf(Flipped(a, d) + tail)[i] == (BitsOf(a + tail)[i] != (i < 8 * |a| && BitsOf(d)[i]))
  {
    hide BitsOf, Flipped;
    FlippedBits(a, d);
    BitsOfConcat(a, tail);
    BitsOfConcat(Flipped(a, d), tail);
  }

  lemma FlippedWithin(a: seq<byte>, tail: seq<byte>)
    requires |a| == HEADER_SIZE
    ensures DifferOnlyWithin(a + tail, Flipped(a, Damage()) + tail, 36, 67)
    ensures a + tail != Flipped(a, Damage()) + tail
  {
    hide BitsOf, Flipped, Damage;
    forall i | 0 <= i < 8 * |a + tail| && !(36 <= i < 67)
      ensures BitsOf(a + tail)[i] == BitsOf(Flipped(a, Damage()) + tail)[i]
    {
      FlippedBitAt(a, Damage(), tail, i);
      if i < 8 * HEADER_SIZE {
        BitsOfDamage(i / 8, i % 8);
      }
    }
    FlippedBitAt(a, Damage(), tail, 64);
    BitsOfDamageAt64();
  }

  /** Every accepted image has another accepted one within a burst of 31 bits. */
  lemma UndetectedBurst(data: seq<byte>) returns (damaged: seq<byte>)
    requires Parse(data, true).Ok?
    ensures damaged != data && DifferOnlyWithin(data, damaged, 36, 67) && Parse(damaged, true).Ok?
  {
    hide Parse, Flipped, Within, Undetected, Damage, DifferOnlyWithin;
    AcceptedHasHeader(data);
    var (a, d, tail) := (data[..HEADER_SIZE], Damage(), data[HEADER_SIZE..]);
    damaged := Flipped(a, d) + tail;
    assert data == a + tail;
    DamageUndetected();
    FieldDamageAcceptedIff(data, d, damaged);
    FlippedWithin(a, tail);
  }

  lemma BitsOfDamageAt64()
    ensures BitsOf(Damage())[64]
  {
    hide BitsOf, Word;
    OuterBits();
    ByteBitsAt(Damage(), 8);
    assert BitsOf(Damage())[64..72][0] == BitsOf(Damage())[64];
  }
}
