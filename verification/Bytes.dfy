/** Byte strings: fixed-width big- and little-endian integers, 4-byte
    alignment, and the NUL searches the parsers share. */
module Bytes {
  type byte = x: int | 0 <= x < 256

  const U16: nat := 0x1_0000
  const U32: nat := 0x1_0000_0000
  const U64: nat := 0x1_0000_0000_0000_0000

  type uint16 = x: int | 0 <= x < U16
  type uint32 = x: int | 0 <= x < U32
  type uint64 = x: int | 0 <= x < U64

  function Be16(v: nat): (b: seq<byte>)
    ensures |b| == 2
  {
    [v / 0x100 % 0x100, v % 0x100]
  }

  function Be32(v: nat): (b: seq<byte>)
    ensures |b| == 4
  {
    Be16(v / U16) + Be16(v % U16)
  }

  function Be64(v: nat): (b: seq<byte>)
    ensures |b| == 8
  {
    Be32(v / U32) + Be32(v % U32)
  }

  function ReadBe16(s: seq<byte>, at: nat): (v: nat)
    requires at + 2 <= |s|
    ensures v < U16
  {
    s[at] as nat * 0x100 + s[at + 1]
  }

  function ReadBe32(s: seq<byte>, at: nat): (v: nat)
    requires at + 4 <= |s|
    ensures v < U32
  {
    ReadBe16(s, at) * U16 + ReadBe16(s, at + 2)
  }

  function ReadBe64(s: seq<byte>, at: nat): (v: nat)
    requires at + 8 <= |s|
    ensures v < U64
  {
    ReadBe32(s, at) * U32 + ReadBe32(s, at + 4)
  }

  function ReadLe16(s: seq<byte>, at: nat): (v: nat)
    requires at + 2 <= |s|
    ensures v < U16
  {
    s[at] as nat + s[at + 1] as nat * 0x100
  }

  function ReadLe32(s: seq<byte>, at: nat): (v: nat)
    requires at + 4 <= |s|
    ensures v < U32
  {
    ReadLe16(s, at) + ReadLe16(s, at + 2) * U16
  }

  lemma Be32Bytes(v: nat)
    ensures Be32(v) == [v / 0x100_0000 % 0x100, v / 0x1_0000 % 0x100, v / 0x100 % 0x100, v % 0x100]
  {
    var (high, low) := (v / U16, v % U16);
    BaseDigits(v, high / 0x100, high % 0x100, low / 0x100, low % 0x100);
  }

  /** A number in base 256, and its quotients by the powers of the base. */
  lemma BaseDigits(v: nat, a: nat, b: nat, c: nat, d: nat)
    requires b < 0x100 && c < 0x100 && d < 0x100 && v == ((a * 0x100 + b) * 0x100 + c) * 0x100 + d
    ensures v / 0x100 == (a * 0x100 + b) * 0x100 + c && v % 0x100 == d
    ensures v / 0x1_0000 == a * 0x100 + b && v / 0x100_0000 == a
    ensures v / 0x1_0000 % 0x100 == b && v / 0x100 % 0x100 == c
  {
    var (low2, low1) := (a * 0x100 + b, (a * 0x100 + b) * 0x100 + c);
    Quotient(v, low1, d);
    Quotient(low1, low2, c);
    Quotient(low2, a, b);
    QuotientTwice(v);
  }

  lemma Quotient(v: nat, q: nat, r: nat)
    requires r < 0x100 && v == q * 0x100 + r
    ensures v / 0x100 == q && v % 0x100 == r
  {
  }

  lemma QuotientTwice(v: nat)
    ensures v / 0x1_0000 == v / 0x100 / 0x100 && v / 0x100_0000 == v / 0x1_0000 / 0x100
  {
  }

  lemma Be16RoundTrip(v: nat, s: seq<byte>, at: nat)
    requires v < U16 && at + 2 <= |s| && s[at..at + 2] == Be16(v)
    ensures ReadBe16(s, at) == v
  {
    assert s[at] == s[at..at + 2][0] && s[at + 1] == s[at..at + 2][1];
  }

  lemma Be32RoundTrip(v: nat, s: seq<byte>, at: nat)
    requires v < U32 && at + 4 <= |s| && s[at..at + 4] == Be32(v)
    ensures ReadBe32(s, at) == v
  {
    assert s[at..at + 2] == s[at..at + 4][..2] == Be16(v / U16);
    assert s[at + 2..at + 4] == s[at..at + 4][2..] == Be16(v % U16);
    Be16RoundTrip(v / U16, s, at);
    Be16RoundTrip(v % U16, s, at + 2);
  }

  lemma Be64RoundTrip(v: nat, s: seq<byte>, at: nat)
    requires v < U64 && at + 8 <= |s| && s[at..at + 8] == Be64(v)
    ensures ReadBe64(s, at) == v
  {
    assert s[at..at + 4] == s[at..at + 8][..4] == Be32(v / U32);
    assert s[at + 4..at + 8] == s[at..at + 8][4..] == Be32(v % U32);
    Be32RoundTrip(v / U32, s, at);
    Be32RoundTrip(v % U32, s, at + 4);
  }

  /** `(-v) % 4` */
  function Pad4(v: int): (n: nat)
    ensures n < 4 && (v + n) % 4 == 0
  {
    if v % 4 == 0 then 0 else 4 - v % 4
  }

  /** The next multiple of four. */
  function Align4(v: int): (r: int)
    ensures v <= r < v + 4 && r % 4 == 0
  {
    v + Pad4(v)
  }

  /** Bit `i` of a number of any width, in two's complement. */
  predicate Bit(v: int, i: nat)
    decreases i
  {
    if i == 0 then v % 2 == 1 else Bit(v / 2, i - 1)
  }

  lemma BitAfterTwo(v: int, i: nat)
    requires i >= 2
    ensures Bit(v, i) == Bit(v / 4, i - 2)
  {
    assert v / 2 / 2 == v / 4;
    assert Bit(v, i) == Bit(v / 2, i - 1) == Bit(v / 2 / 2, i - 2);
  }

  /** The masked form `(v + 3) & ~3`: the bits of `v + 3` without the lowest two. */
  lemma Align4IsMask(v: int, i: nat)
    ensures Bit(Align4(v), i) <==> i >= 2 && Bit(v + 3, i)
  {
    var a := Align4(v);
    assert a == (v + 3) / 4 * 4;
    if i >= 2 {
      BitAfterTwo(a, i);
      BitAfterTwo(v + 3, i);
    } else if i == 1 {
      assert Bit(a, 1) == Bit(a / 2, 0);
    }
  }

  /** Padding depends only on the length after an aligned base. */
  lemma AlignedPads(base: nat, length: nat)
    requires base % 4 == 0
    ensures Pad4(base + length) == Pad4(length)
  {
    assert base + length == 4 * (base / 4 + length / 4) + length % 4;
  }

  lemma AlignedSum(a: nat, b: nat)
    requires a % 4 == 0 && b % 4 == 0
    ensures (a + b) % 4 == 0
  {
  }

  lemma SliceOfSlice(s: seq<byte>, a: nat, b: nat, i: nat, j: nat)
    requires a <= b <= |s| && i <= j <= b - a
    ensures s[a..b][i..j] == s[a + i..a + j]
  {
    var (t, u) := (s[a..b][i..j], s[a + i..a + j]);
    assert forall k :: 0 <= k < j - i ==> t[k] == s[a + i + k] == u[k];
    assert t == u;
  }

  // Python's slices ----------------------------------------------------------------

  /** Where a slice bound falls: a negative one counts from the end. */
  function Bound(length: nat, i: int): (b: nat)
    ensures b <= length && (0 <= i <= length ==> b == i)
  {
    if i > length then length else if i >= 0 then i else if length + i >= 0 then length + i else 0
  }

  /** `s[i:j]` */
  function Slice(s: seq<byte>, i: int, j: int): (t: seq<byte>)
    ensures i <= j ==> |t| <= j - i
    ensures 0 <= i <= j <= |s| ==> t == s[i..j]
  {
    var (from, to) := (Bound(|s|, i), Bound(|s|, j));
    if from <= to then s[from..to] else []
  }

  // Concatenation ------------------------------------------------------------------

  function Concat(parts: seq<seq<byte>>): seq<byte> {
    if parts == [] then [] else Concat(parts[..|parts| - 1]) + parts[|parts| - 1]
  }

  /** The first part comes first. */
  lemma {:induction false} ConcatStarts(parts: seq<seq<byte>>)
    requires parts != []
    ensures Concat(parts) == parts[0] + Concat(parts[1..])
    decreases |parts|
  {
    var n := |parts| - 1;
    if n == 0 {
      assert parts[..0] == [] && parts[1..] == [];
    } else {
      ConcatStarts(parts[..n]);
      assert parts[..n][1..] == parts[1..][..n - 1] && parts[1..][n - 1] == parts[n];
      assert Concat(parts) == parts[0] + Concat(parts[1..][..n - 1]) + parts[n];
    }
  }

  // Pieces of byte strings -------------------------------------------------------

  predicate AllZero(s: seq<byte>) {
    forall i :: 0 <= i < |s| ==> s[i] == 0
  }

  function Zeros(n: nat): (z: seq<byte>)
    ensures |z| == n && AllZero(z)
  {
    seq(n, _ => 0)
  }

  /** With NUL bytes up to a multiple of four. */
  function Padded(s: seq<byte>): (p: seq<byte>)
    ensures |p| == |s| + Pad4(|s|) && |p| % 4 == 0 && s <= p
  {
    s + Zeros(Pad4(|s|))
  }

  /** `part` stands in `image` at `offset`. */
  ghost predicate At(image: seq<byte>, offset: nat, part: seq<byte>) {
    offset + |part| <= |image| && image[offset..offset + |part|] == part
  }

  lemma AtSplits(image: seq<byte>, offset: nat, a: seq<byte>, b: seq<byte>)
    requires At(image, offset, a + b)
    ensures At(image, offset, a) && At(image, offset + |a|, b)
  {
    var w := image[offset..offset + |a + b|];
    assert image[offset..offset + |a|] == w[..|a|] == a;
    assert image[offset + |a|..offset + |a| + |b|] == w[|a|..] == b;
  }
}
