/** Machine words as bit sequences, least significant bit first: shifting,
    exclusive or, splitting into bytes, and injectivity. */
module WordBits {
  import opened Bytes
  import opened ShiftRegister

  /** The machine word with the low `k` binary digits of `n`. */
  function Digits(n: nat, k: nat): bv32
    decreases k, n
  {
    if k == 0 then 0 else (Digits(n / 2, k - 1) << 1) | (if n % 2 == 1 then 1 else 0)
  }

  /** A byte in the low bits of a machine word. */
  function Word(b: byte): bv32 {
    Digits(b, 8)
  }

  lemma ComplementInjective(v: bv32, w: bv32)
    requires v ^ 0xffffffff == w ^ 0xffffffff
    ensures v == w
  {
  }

  predicate Low(w: bv32) {
    w & 1 == 1
  }

  function Half(w: bv32): bv32 {
    w >> 1
  }

  /** The low `n` bits of a word, least significant first. */
  function LowBits(w: bv32, n: nat): (bits: seq<bool>)
    ensures |bits| == n
    decreases n, w
  {
    if n == 0 then [] else [Low(w)] + LowBits(Half(w), n - 1)
  }

  function Bits(w: bv32): Register {
    LowBits(w, 32)
  }

  /** The message bits in transmission order, least significant first in each byte. */
  function BitsOf(bytes: seq<byte>): (bits: seq<bool>)
    ensures |bits| == 8 * |bytes|
    decreases bytes
  {
    if bytes == [] then [] else LowBits(Word(bytes[0]), 8) + BitsOf(bytes[1..])
  }

  lemma XorHalf(a: bv32, b: bv32, x: bv32)
    requires x == a ^ b
    ensures Half(x) == Half(a) ^ Half(b)
    ensures Low(x) == (Low(a) != Low(b))
  {
  }

  lemma XorCons(p: bool, q: bool, a: seq<bool>, b: seq<bool>)
    requires |a| == |b|
    ensures Xor([p] + a, [q] + b) == [p != q] + Xor(a, b)
  {
  }

  lemma {:induction false} XorBits(a: bv32, b: bv32, x: bv32, n: nat)
    requires x == a ^ b
    ensures LowBits(x, n) == Xor(LowBits(a, n), LowBits(b, n))
    decreases n
  {
    if n > 0 {
      XorHalf(a, b, x);
      var (a', b', x') := (Half(a), Half(b), Half(x));
      XorBits(a', b', x', n - 1);
      XorCons(Low(a), Low(b), LowBits(a', n - 1), LowBits(b', n - 1));
    }
  }

  lemma {:induction false} LowBitsInjective(v: bv32, w: bv32, n: nat)
    requires LowBits(v, n) == LowBits(w, n)
    requires ShiftedRight(v, n) == ShiftedRight(w, n)
    ensures v == w
    decreases n
  {
    if n > 0 {
      assert LowBits(v, n)[0] == Low(v) && LowBits(w, n)[0] == Low(w);
      assert LowBits(v, n)[1..] == LowBits(Half(v), n - 1);
      assert LowBits(w, n)[1..] == LowBits(Half(w), n - 1);
      LowBitsInjective(Half(v), Half(w), n - 1);
      HalvesDetermine(v, w);
    }
  }

  lemma HalvesDetermine(v: bv32, w: bv32)
    requires Half(v) == Half(w) && Low(v) == Low(w)
    ensures v == w
  {
  }

  function ShiftedRight(w: bv32, n: nat): bv32
    decreases n, w
  {
    if n == 0 then w else ShiftedRight(Half(w), n - 1)
  }

  lemma {:induction false} LowBitsSplit(w: bv32, m: nat, n: nat)
    ensures LowBits(w, m + n) == LowBits(w, m) + LowBits(ShiftedRight(w, m), n)
    decreases m
  {
    if m > 0 {
      LowBitsSplit(Half(w), m - 1, n);
    }
  }

  lemma {:induction false} ShiftedRightSplits(w: bv32, m: nat, n: nat)
    ensures ShiftedRight(w, m + n) == ShiftedRight(ShiftedRight(w, m), n)
    decreases m
  {
    if m > 0 {
      ShiftedRightSplits(Half(w), m - 1, n);
    }
  }

  lemma ShiftsCompose(w: bv32, v: bv32, u: bv32, m: nat, n: nat)
    requires ShiftedRight(w, m) == v && ShiftedRight(v, n) == u
    ensures ShiftedRight(w, m + n) == u
  {
    ShiftedRightSplits(w, m, n);
  }

  lemma ShiftSums(w: bv32)
    ensures w >> 1 >> 1 == w >> 2 && w >> 2 >> 2 == w >> 4 && w >> 4 >> 4 == w >> 8
    ensures w >> 8 >> 8 == w >> 16 && w >> 16 >> 8 == w >> 24 && w >> 16 >> 16 == 0
  {
  }

  lemma ShiftedBy1(w: bv32, v: bv32)
    requires v == w >> 1
    ensures ShiftedRight(w, 1) == v
  {
  }

  lemma ShiftedBy2(w: bv32, v: bv32, u: bv32)
    requires v == w >> 1 && u == w >> 2
    ensures ShiftedRight(w, 2) == u
  {
    ShiftSums(w);
    ShiftedBy1(w, v);
    ShiftedBy1(v, u);
    ShiftsCompose(w, v, u, 1, 1);
  }

  lemma ShiftedBy4(w: bv32, v: bv32, u: bv32)
    requires v == w >> 2 && u == w >> 4
    ensures ShiftedRight(w, 4) == u
  {
    ShiftSums(w);
    ShiftedBy2(w, w >> 1, v);
    ShiftedBy2(v, v >> 1, u);
    ShiftsCompose(w, v, u, 2, 2);
  }

  lemma ShiftedBy8(w: bv32, v: bv32, u: bv32)
    requires v == w >> 4 && u == w >> 8
    ensures ShiftedRight(w, 8) == u
  {
    ShiftSums(w);
    ShiftedBy4(w, w >> 2, v);
    ShiftedBy4(v, v >> 2, u);
    ShiftsCompose(w, v, u, 4, 4);
  }

  lemma ShiftedBy16(w: bv32, v: bv32, u: bv32)
    requires v == w >> 8 && u == w >> 16
    ensures ShiftedRight(w, 16) == u
  {
    ShiftSums(w);
    ShiftedBy8(w, w >> 4, v);
    ShiftedBy8(v, v >> 4, u);
    ShiftsCompose(w, v, u, 8, 8);
  }

  lemma ShiftedBy24(w: bv32, v: bv32, u: bv32)
    requires v == w >> 16 && u == w >> 24
    ensures ShiftedRight(w, 24) == u
  {
    ShiftSums(w);
    ShiftedBy16(w, w >> 8, v);
    ShiftedBy8(v, v >> 4, u);
    ShiftsCompose(w, v, u, 16, 8);
  }

  lemma NothingLeftAfter32(w: bv32)
    ensures ShiftedRight(w, 32) == 0
  {
    var v := w >> 16;
    ShiftedBy16(w, w >> 8, v);
    ShiftSums(w);
    ShiftedBy16(v, v >> 8, 0);
    ShiftsCompose(w, v, 0, 16, 16);
  }

  lemma ShiftedByBytes(w: bv32, w8: bv32, w16: bv32, w24: bv32)
    requires w8 == w >> 8 && w16 == w >> 16 && w24 == w >> 24
    ensures ShiftedRight(w, 8) == w8
    ensures ShiftedRight(w, 16) == w16
    ensures ShiftedRight(w, 24) == w24
  {
    ShiftedBy8(w, w >> 4, w8);
    ShiftedBy16(w, w8, w16);
    ShiftedBy24(w, w16, w24);
  }

  /** A word's bits are those of its four bytes, least significant byte first. */
  lemma WordBytes(w: bv32)
    ensures Bits(w) == LowBits(w, 8) + (LowBits(ShiftedRight(w, 8), 8)
                         + (LowBits(ShiftedRight(w, 16), 8) + LowBits(ShiftedRight(w, 24), 8)))
  {
    hide LowBits, ShiftedRight;
    LowBitsSplit(w, 8, 24);
    LowBitsSplit(ShiftedRight(w, 8), 8, 16);
    ShiftedRightSplits(w, 8, 8);
    LowBitsSplit(ShiftedRight(w, 16), 8, 8);
    ShiftedRightSplits(w, 16, 8);
  }

  lemma NibbleBits(w: bv32)
    ensures LowBits(w, 4) == [w & 1 == 1, w & 2 == 2, w & 4 == 4, w & 8 == 8]
  {
    var (w1, w2, w3) := (Half(w), Half(Half(w)), Half(Half(Half(w))));
    assert LowBits(w, 4) == [Low(w)] + ([Low(w1)] + LowBits(w2, 2));
    assert LowBits(w2, 2) == [Low(w2), Low(w3)];
    assert Low(w1) == (w & 2 == 2);
    assert Low(w2) == (w & 4 == 4);
    assert Low(w3) == (w & 8 == 8);
  }

  /** The bits of a word's low byte, from its two nibbles. */
  lemma NibblePair(w: bv32, high: bv32)
    requires high == w >> 4
    ensures LowBits(w, 8) == LowBits(w, 4) + LowBits(high, 4)
  {
    LowBitsSplit(w, 4, 4);
    ShiftedBy4(w, w >> 2, high);
  }

  lemma {:induction false} LowBitsOfZero(n: nat)
    ensures AllFalse(LowBits(0, n))
  {
    if n > 0 {
      assert Half(0) == 0;
      LowBitsOfZero(n - 1);
    }
  }

  lemma ZeroBits()
    ensures Bits(0) == Zero()
  {
    LowBitsOfZero(32);
  }

  lemma HalfIsShift(w: bv32)
    ensures Bits(Half(w)) == Shift(Bits(w))
  {
    LowBitsSplit(w, 32, 1);
    NothingLeftAfter32(w);
    LowBitsOfZero(1);
    assert LowBits(w, 33) == Bits(w) + [false];
    assert LowBits(w, 33)[1..] == Bits(Half(w));
  }

  lemma ByteBits(w: bv32)
    requires w >> 8 == 0
    ensures Bits(w) == Widen(LowBits(w, 8))
  {
    LowBitsSplit(w, 8, 24);
    ShiftedBy8(w, w >> 4, w >> 8);
    LowBitsOfZero(24);
  }

  lemma BitsInjective(v: bv32, w: bv32)
    requires Bits(v) == Bits(w)
    ensures v == w
  {
    NothingLeftAfter32(v);
    NothingLeftAfter32(w);
    LowBitsInjective(v, w, 32);
  }

  /** The first word that `k` binary digits do not reach. */
  function Limit(k: nat): bv32
    requires k <= 8
  {
    if k == 0 then 1 else if k == 1 then 2 else if k == 2 then 4 else if k == 3 then 8 else if k == 4 then 16
    else if k == 5 then 32 else if k == 6 then 64 else if k == 7 then 128 else 256
  }

  lemma LimitDoubles(k: nat)
    requires 0 < k <= 8
    ensures Limit(k - 1) <= 128 && Limit(k) == Limit(k - 1) << 1
  {
  }

  lemma OneMoreDigit(d: bv32, limit: bv32, last: bool, w: bv32)
    requires d < limit <= 128 && w == (d << 1) | (if last then 1 else 0)
    ensures w < limit << 1 && Half(w) == d && Low(w) == last
  {
  }

  /** The digits of a number as bits, least significant first. */
  function DigitBits(n: nat, k: nat): (bits: seq<bool>)
    ensures |bits| == k
    decreases k, n
  {
    if k == 0 then [] else [n % 2 == 1] + DigitBits(n / 2, k - 1)
  }

  lemma {:induction false} DigitsAreBits(n: nat, k: nat, w: bv32)
    requires k <= 8 && w == Digits(n, k)
    ensures w < Limit(k) && LowBits(w, k) == DigitBits(n, k)
    decreases k
  {
    if k > 0 {
      hide Limit, Low, Half;
      var d := Digits(n / 2, k - 1);
      DigitsAreBits(n / 2, k - 1, d);
      LimitDoubles(k);
      OneMoreDigit(d, Limit(k - 1), n % 2 == 1, w);
      assert LowBits(w, k) == [Low(w)] + LowBits(Half(w), k - 1);
    }
  }

  function PowerOfTwo(k: nat): nat {
    if k == 0 then 1 else 2 * PowerOfTwo(k - 1)
  }

  lemma {:induction false} DigitBitsInjective(x: nat, y: nat, k: nat)
    requires x < PowerOfTwo(k) && y < PowerOfTwo(k) && DigitBits(x, k) == DigitBits(y, k)
    ensures x == y
    decreases k
  {
    if k > 0 {
      var (a, b) := (DigitBits(x, k), DigitBits(y, k));
      assert a[0] == b[0] && a[1..] == b[1..];
      DigitBitsInjective(x / 2, y / 2, k - 1);
    }
  }

  /** The number with these binary digits, least significant first. */
  function Number(bits: seq<bool>): (n: nat)
    ensures n < PowerOfTwo(|bits|)
  {
    if bits == [] then 0 else (if bits[0] then 1 else 0) + 2 * Number(bits[1..])
  }

  lemma {:induction false} NumberHasBits(bits: seq<bool>)
    ensures DigitBits(Number(bits), |bits|) == bits
    decreases |bits|
  {
    if bits != [] {
      var n := Number(bits);
      assert n % 2 == (if bits[0] then 1 else 0) && n / 2 == Number(bits[1..]);
      NumberHasBits(bits[1..]);
      assert bits == [bits[0]] + bits[1..];
    }
  }

  /** The byte with these eight bits. */
  function ByteOf(bits: seq<bool>): byte
    requires |bits| == 8
  {
    assert PowerOfTwo(8) == 256;
    Number(bits)
  }

  lemma ByteOfBits(bits: seq<bool>)
    requires |bits| == 8
    ensures LowBits(Word(ByteOf(bits)), 8) == bits
  {
    NumberHasBits(bits);
    DigitsAreBits(ByteOf(bits), 8, Word(ByteOf(bits)));
  }

  lemma ByteFromBits(x: byte, y: byte)
    requires LowBits(Word(x), 8) == LowBits(Word(y), 8)
    ensures x == y
  {
    DigitsAreBits(x, 8, Word(x));
    DigitsAreBits(y, 8, Word(y));
    assert PowerOfTwo(8) == 256;
    DigitBitsInjective(x, y, 8);
  }

  lemma {:induction false} PowersMultiply(m: nat, n: nat)
    ensures PowerOfTwo(m + n) == PowerOfTwo(m) * PowerOfTwo(n)
    decreases m
  {
    if m > 0 {
      PowersMultiply(m - 1, n);
      Doubled(PowerOfTwo(m - 1), PowerOfTwo(n));
    }
  }

  lemma Doubled(a: nat, b: nat)
    ensures (2 * a) * b == 2 * (a * b)
  {
  }

  lemma PowerOf32()
    ensures PowerOfTwo(32) == U32
  {
    assert PowerOfTwo(8) == 256;
    PowersMultiply(8, 8);
    PowersMultiply(16, 16);
  }

  /** The unsigned value of a machine word. */
  function WordValue(w: bv32): uint32 {
    PowerOf32();
    Number(Bits(w))
  }

  lemma NumberInjective(a: seq<bool>, b: seq<bool>)
    requires |a| == |b| && Number(a) == Number(b)
    ensures a == b
  {
    NumberHasBits(a);
    NumberHasBits(b);
  }

  /** Different machine words have different values. */
  lemma WordValueInjective(v: bv32, w: bv32)
    requires WordValue(v) == WordValue(w)
    ensures v == w
  {
    hide LowBits, Number;
    NumberInjective(Bits(v), Bits(w));
    BitsInjective(v, w);
  }

  lemma {:induction false} NumberJoined(a: seq<bool>, b: seq<bool>)
    ensures Number(a + b) == Number(a) + PowerOfTwo(|a|) * Number(b)
    decreases |a|
  {
    if a == [] {
      assert a + b == b;
    } else {
      var rest := a[1..];
      assert (a + b)[1..] == rest + b && (a + b)[0] == a[0];
      NumberJoined(rest, b);
      NumberStep(Number(a + b), Number(a), Number(rest + b), Number(rest), if a[0] then 1 else 0,
                 PowerOfTwo(|rest|), Number(b));
    }
  }

  lemma NumberStep(all: nat, a: nat, tail: nat, rest: nat, bit: nat, power: nat, b: nat)
    requires all == bit + 2 * tail && a == bit + 2 * rest && tail == rest + power * b
    ensures all == a + (2 * power) * b
  {
    Doubled(power, b);
  }

  lemma NumberOfByte(b: byte)
    ensures Number(LowBits(Word(b), 8)) == b
  {
    DigitsAreBits(b, 8, Word(b));
    NumberHasBits(DigitBits(b, 8));
    assert PowerOfTwo(8) == 256;
    DigitBitsInjective(Number(DigitBits(b, 8)), b, 8);
  }

  lemma {:induction false} BitsOfInjective(a: seq<byte>, b: seq<byte>)
    requires BitsOf(a) == BitsOf(b)
    ensures a == b
  {
    if a != [] && b != [] {
      assert BitsOf(a)[..8] == LowBits(Word(a[0]), 8);
      assert BitsOf(b)[..8] == LowBits(Word(b[0]), 8);
      ByteFromBits(a[0], b[0]);
      assert BitsOf(a)[8..] == BitsOf(a[1..]);
      assert BitsOf(b)[8..] == BitsOf(b[1..]);
      BitsOfInjective(a[1..], b[1..]);
    }
  }

  lemma {:induction false} BitsOfConcat(a: seq<byte>, b: seq<byte>)
    ensures BitsOf(a + b) == BitsOf(a) + BitsOf(b)
    decreases a
  {
    if a == [] {
      assert a + b == b;
    } else {
      assert (a + b)[1..] == a[1..] + b;
      BitsOfConcat(a[1..], b);
    }
  }

  lemma BitsOfSlice(s: seq<byte>, from: nat, to: nat)
    requires from <= to <= |s|
    ensures BitsOf(s[from..to]) == BitsOf(s)[8 * from..8 * to]
  {
    hide BitsOf;
    assert s[..to] == s[..from] + s[from..to];
    assert s == s[..to] + s[to..];
    BitsOfConcat(s[..to], s[to..]);
    BitsOfConcat(s[..from], s[from..to]);
    assert BitsOf(s)[..8 * to] == BitsOf(s[..to]);
    assert BitsOf(s)[8 * from..8 * to] == BitsOf(s)[..8 * to][8 * from..];
  }

  // Little-endian words --------------------------------------------------------

  /** The word whose bytes are at `at`, least significant first. */
  function LittleEndianWord(s: seq<byte>, at: nat): bv32
    requires at + 4 <= |s|
  {
    Word(s[at]) | (Word(s[at + 1]) << 8) | (Word(s[at + 2]) << 16) | (Word(s[at + 3]) << 24)
  }

  lemma MasksAgree(v: bv32, u: bv32)
    requires v & 0xff == u & 0xff
    ensures v & 1 == u & 1 && v & 2 == u & 2 && v & 4 == u & 4 && v & 8 == u & 8
    ensures (v >> 4) & 1 == (u >> 4) & 1 && (v >> 4) & 2 == (u >> 4) & 2
    ensures (v >> 4) & 4 == (u >> 4) & 4 && (v >> 4) & 8 == (u >> 4) & 8
  {
  }

  lemma LowByteDetermines(v: bv32, u: bv32)
    requires v & 0xff == u & 0xff
    ensures LowBits(v, 8) == LowBits(u, 8)
  {
    MasksAgree(v, u);
    NibbleBits(v);
    NibbleBits(u);
    NibbleBits(v >> 4);
    NibbleBits(u >> 4);
    NibblePair(v, v >> 4);
    NibblePair(u, u >> 4);
  }

  lemma AssembledBytes(b0: bv32, b1: bv32, b2: bv32, b3: bv32, w: bv32, w8: bv32, w16: bv32, w24: bv32)
    requires b0 >> 8 == 0 && b1 >> 8 == 0 && b2 >> 8 == 0 && b3 >> 8 == 0
    requires w == b0 | (b1 << 8) | (b2 << 16) | (b3 << 24)
    requires w8 == w >> 8 && w16 == w >> 16 && w24 == w >> 24
    ensures w & 0xff == b0 & 0xff
    ensures w8 & 0xff == b1 & 0xff
    ensures w16 & 0xff == b2 & 0xff
    ensures w24 & 0xff == b3 & 0xff
  {
  }

  lemma WordIsShort(b: byte)
    ensures Word(b) >> 8 == 0
  {
    DigitsAreBits(b, 8, Word(b));
    ShortOfLimit(Word(b));
  }

  lemma ShortOfLimit(w: bv32)
    requires w < 256
    ensures w >> 8 == 0
  {
  }

  /** The bits of a little-endian word are the bits of its bytes in order. */
  lemma LittleEndianBits(s: seq<byte>)
    requires |s| == 4
    ensures BitsOf(s) == Bits(LittleEndianWord(s, 0))
  {
    hide Word, BitsOf, LowBits;
    LittleEndianBitsOf(s, LittleEndianWord(s, 0), Word(s[0]), Word(s[1]), Word(s[2]), Word(s[3]));
    FourBytes(s);
  }

  lemma LittleEndianBitsOf(s: seq<byte>, w: bv32, b0: bv32, b1: bv32, b2: bv32, b3: bv32)
    requires |s| == 4 && b0 == Word(s[0]) && b1 == Word(s[1]) && b2 == Word(s[2]) && b3 == Word(s[3])
    requires w == b0 | (b1 << 8) | (b2 << 16) | (b3 << 24)
    ensures Bits(w) == LowBits(b0, 8) + (LowBits(b1, 8) + (LowBits(b2, 8) + LowBits(b3, 8)))
  {
    WordIsShort(s[0]);
    WordIsShort(s[1]);
    WordIsShort(s[2]);
    WordIsShort(s[3]);
    AssembledBits(b0, b1, b2, b3, w, w >> 8, w >> 16, w >> 24);
  }

  lemma FourBytes(s: seq<byte>)
    requires |s| == 4
    ensures BitsOf(s) == LowBits(Word(s[0]), 8) + (LowBits(Word(s[1]), 8)
                           + (LowBits(Word(s[2]), 8) + LowBits(Word(s[3]), 8)))
  {
    hide Word, LowBits;
    assert s[1..][1..] == s[2..] && s[2..][1..] == s[3..] && s[3..][1..] == [];
    assert BitsOf(s[2..]) == LowBits(Word(s[2]), 8) + BitsOf(s[3..]);
    assert BitsOf(s[3..]) == LowBits(Word(s[3]), 8);
  }

  lemma AssembledBits(b0: bv32, b1: bv32, b2: bv32, b3: bv32, w: bv32, w8: bv32, w16: bv32, w24: bv32)
    requires b0 >> 8 == 0 && b1 >> 8 == 0 && b2 >> 8 == 0 && b3 >> 8 == 0
    requires w == b0 | (b1 << 8) | (b2 << 16) | (b3 << 24)
    requires w8 == w >> 8 && w16 == w >> 16 && w24 == w >> 24
    ensures Bits(w) == LowBits(b0, 8) + (LowBits(b1, 8) + (LowBits(b2, 8) + LowBits(b3, 8)))
  {
    WordBytes(w);
    ShiftedByBytes(w, w8, w16, w24);
    AssembledBytes(b0, b1, b2, b3, w, w8, w16, w24);
    LowByteDetermines(w, b0);
    LowByteDetermines(w8, b1);
    LowByteDetermines(w16, b2);
    LowByteDetermines(w24, b3);
  }
}
