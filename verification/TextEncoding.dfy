/** What the parsers' texts and numbers are: UTF-8 by its definition (section 3 of RFC
    3629), hexadecimal digits and white space by their values, and slices that count from
    the end. */
module TextEncoding {
  import opened Bytes
  import opened Hexadecimal
  import opened Text

  // UTF-8 --------------------------------------------------------------------------------

  /** A Unicode scalar value: no surrogate, and at most 0x10ffff. */
  predicate Scalar(c: nat) {
    c < 0xd800 || 0xe000 <= c < 0x11_0000
  }

  function Encode(c: nat): (b: seq<byte>)
    requires Scalar(c)
    ensures b != []
  {
    if c < 0x80 then [c]
    else if c < 0x800 then [0xc0 + c / 0x40, 0x80 + c % 0x40]
    else if c < 0x1_0000 then [0xe0 + c / 0x1000, 0x80 + c / 0x40 % 0x40, 0x80 + c % 0x40]
    else [0xf0 + c / 0x4_0000, 0x80 + c / 0x1000 % 0x40, 0x80 + c / 0x40 % 0x40, 0x80 + c % 0x40]
  }

  predicate Scalars(cs: seq<nat>) {
    forall i :: 0 <= i < |cs| ==> Scalar(cs[i])
  }

  function EncodeAll(cs: seq<nat>): seq<byte>
    requires Scalars(cs)
  {
    if cs == [] then [] else Encode(cs[0]) + EncodeAll(cs[1..])
  }

  lemma TwoDigits(high: nat, low: nat)
    requires low < 0x40
    ensures (high * 0x40 + low) / 0x40 == high && (high * 0x40 + low) % 0x40 == low
  {
  }

  /** Digits of six bits. */
  lemma SixBitDigits(c: nat, a: nat, b: nat, d: nat)
    requires b < 0x40 && d < 0x40 && c == (a * 0x40 + b) * 0x40 + d
    ensures c / 0x1000 == a && c / 0x40 % 0x40 == b && c % 0x40 == d && c / 0x40 == a * 0x40 + b
  {
    TwoDigits(a * 0x40 + b, d);
    TwoDigits(a, b);
    assert c / 0x1000 == c / 0x40 / 0x40;
  }

  lemma FourDigits(c: nat, a: nat, b: nat, d: nat, e: nat)
    requires b < 0x40 && d < 0x40 && e < 0x40 && c == ((a * 0x40 + b) * 0x40 + d) * 0x40 + e
    ensures c / 0x4_0000 == a && c / 0x1000 % 0x40 == b && c / 0x40 % 0x40 == d && c % 0x40 == e
  {
    SixBitDigits(c, a * 0x40 + b, d, e);
    TwoDigits(a, b);
    assert c / 0x4_0000 == c / 0x1000 / 0x40;
  }

  /** The first character of a text stands for one scalar value. */
  lemma FirstIsEncoded(s: seq<byte>) returns (c: nat)
    requires s != [] && CharacterWidth(s) > 0
    ensures Scalar(c) && s[..CharacterWidth(s)] == Encode(c)
  {
    var w := CharacterWidth(s);
    var b0: nat := s[0];
    if w == 1 {
      c := b0;
    } else if w == 2 {
      var b1: nat := s[1];
      c := (b0 - 0xc0) * 0x40 + (b1 - 0x80);
      TwoDigits(b0 - 0xc0, b1 - 0x80);
    } else if w == 3 {
      c := ThreeDecoded(s);
    } else {
      c := FourDecoded(s);
    }
  }

  lemma ThreeDecoded(s: seq<byte>) returns (c: nat)
    requires s != [] && CharacterWidth(s) == 3
    ensures Scalar(c) && s[..3] == Encode(c)
  {
    var (b0: nat, b1: nat, b2: nat) := (s[0], s[1], s[2]);
    c := ((b0 - 0xe0) * 0x40 + (b1 - 0x80)) * 0x40 + (b2 - 0x80);
    SixBitDigits(c, b0 - 0xe0, b1 - 0x80, b2 - 0x80);
  }

  lemma FourDecoded(s: seq<byte>) returns (c: nat)
    requires s != [] && CharacterWidth(s) == 4
    ensures Scalar(c) && s[..4] == Encode(c)
  {
    var (b0: nat, b1: nat, b2: nat, b3: nat) := (s[0], s[1], s[2], s[3]);
    c := (((b0 - 0xf0) * 0x40 + (b1 - 0x80)) * 0x40 + (b2 - 0x80)) * 0x40 + (b3 - 0x80);
    FourDigits(c, b0 - 0xf0, b1 - 0x80, b2 - 0x80, b3 - 0x80);
  }

  /** And every scalar value is one character wherever it is followed by anything. */
  lemma EncodedIsFirst(c: nat, rest: seq<byte>)
    requires Scalar(c)
    ensures CharacterWidth(Encode(c) + rest) == |Encode(c)|
  {
    var s := Encode(c) + rest;
    assert forall i :: 0 <= i < |Encode(c)| ==> s[i] == Encode(c)[i];
    if c < 0x80 {
      assert s[0] == c;
    } else if c < 0x800 {
      assert s[0] == 0xc0 + c / 0x40 && s[1] == 0x80 + c % 0x40;
    } else if c < 0x1_0000 {
      ThreeBytes(s, c, c / 0x1000, c / 0x40 % 0x40, c % 0x40);
    } else {
      FourBytes(s, c, c / 0x4_0000, c / 0x1000 % 0x40, c / 0x40 % 0x40, c % 0x40);
    }
  }

  lemma ThreeBytes(s: seq<byte>, c: nat, a: nat, b: nat, d: nat)
    requires Scalar(c) && 0x800 <= c < 0x1_0000 && a == c / 0x1000 && b == c / 0x40 % 0x40 && d == c % 0x40
    requires |s| >= 3 && s[0] == 0xe0 + a && s[1] == 0x80 + b && s[2] == 0x80 + d
    ensures CharacterWidth(s) == 3
  {
    TopDigits(c, 0x40);
    assert c / 0x40 == 0x40 * a + b && c == 0x40 * (c / 0x40) + d;
  }

  lemma FourBytes(s: seq<byte>, c: nat, a: nat, b: nat, d: nat, e: nat)
    requires 0x1_0000 <= c < 0x11_0000 && a == c / 0x4_0000 && b == c / 0x1000 % 0x40 && d == c / 0x40 % 0x40
    requires e == c % 0x40 && |s| >= 4
    requires s[0] == 0xf0 + a && s[1] == 0x80 + b && s[2] == 0x80 + d && s[3] == 0x80 + e
    ensures CharacterWidth(s) == 4
  {
    TopDigits(c, 0x1000);
    TopDigits(c, 0x40);
    assert c / 0x1000 == 0x40 * a + b;
  }

  lemma TopDigits(c: nat, unit: nat)
    requires unit == 0x40 || unit == 0x1000
    ensures c / unit == 0x40 * (c / (0x40 * unit)) + c / unit % 0x40
  {
    assert unit == 0x40 ==> c / 0x40 / 0x40 == c / 0x1000;
    assert unit == 0x1000 ==> c / 0x1000 / 0x40 == c / 0x4_0000;
  }

  lemma {:induction false} EncodedIsText(cs: seq<nat>)
    requires Scalars(cs)
    ensures Utf8(EncodeAll(cs))
    decreases |cs|
  {
    hide Encode, CharacterWidth, Scalar;
    if cs != [] {
      var (first, rest) := (Encode(cs[0]), EncodeAll(cs[1..]));
      EncodedIsFirst(cs[0], rest);
      EncodedIsText(cs[1..]);
      assert (first + rest)[|first|..] == rest;
    }
  }

  lemma {:induction false} TextIsEncoded(s: seq<byte>) returns (cs: seq<nat>)
    requires Utf8(s)
    ensures Scalars(cs) && s == EncodeAll(cs)
    decreases |s|
  {
    hide Encode, CharacterWidth, Scalar;
    if s == [] {
      cs := [];
    } else {
      var w := CharacterWidth(s);
      var c := FirstIsEncoded(s);
      var rest := TextIsEncoded(s[w..]);
      cs := [c] + rest;
      assert cs[1..] == rest && s == s[..w] + s[w..];
    }
  }

  /** Text is exactly what encodes Unicode scalar values. */
  lemma TextIff(s: seq<byte>)
    ensures Utf8(s) <==> exists cs :: Scalars(cs) && s == EncodeAll(cs)
  {
    hide Utf8, Encode, Scalar;
    if Utf8(s) {
      var cs := TextIsEncoded(s);
    }
    forall cs | Scalars(cs) && s == EncodeAll(cs) ensures Utf8(s) {
      EncodedIsText(cs);
    }
  }

  // Digits and spaces -----------------------------------------------------------------------

  const UPPER: seq<byte> :=
    [0x30, 0x31, 0x32, 0x33, 0x34, 0x35, 0x36, 0x37, 0x38, 0x39, 0x41, 0x42, 0x43, 0x44, 0x45, 0x46]
  const LOWER: seq<byte> :=
    [0x30, 0x31, 0x32, 0x33, 0x34, 0x35, 0x36, 0x37, 0x38, 0x39, 0x61, 0x62, 0x63, 0x64, 0x65, 0x66]

  /** Digits are read in either case and written in upper case. */
  lemma DigitsAre(v: nat)
    requires v < 16
    ensures HexDigit(v) == UPPER[v] && IsHexDigit(UPPER[v]) && IsHexDigit(LOWER[v])
    ensures DigitValue(UPPER[v]) == v && DigitValue(LOWER[v]) == v
  {
  }

  lemma OnlyDigits(b: byte)
    requires IsHexDigit(b)
    ensures b == UPPER[DigitValue(b)] || b == LOWER[DigitValue(b)]
  {
  }

  /** A space, or one of the control characters from a tab to a carriage return. */
  lemma SpacesAre(b: byte)
    ensures IsSpace(b) <==> b == 0x20 || b == 0x09 || b == 0x0a || b == 0x0b || b == 0x0c || b == 0x0d
  {
  }

  /** A sign is `+` or `-`; a prefix is `0x` or `0X`, perhaps with one underscore. */
  lemma SpellingParts(s: seq<byte>)
    ensures IsSign(s) <==> s == [] || s == [0x2b] || s == [0x2d]
    ensures IsPrefix(s) <==>
            || s == [] || s == [0x30, 0x78] || s == [0x30, 0x58] || s == [0x30, 0x78, 0x5f] || s == [0x30, 0x58, 0x5f]
  {
  }

  /** Each digit is worth sixteen times the next. */
  lemma ValueOfDigits(h: seq<byte>, b: byte)
    requires AllHex(h) && IsHexDigit(b)
    ensures AllHex(h + [b]) && HexValue(h + [b]) == 16 * HexValue(h) + DigitValue(b) && HexValue([]) == 0
  {
    assert (h + [b])[..|h|] == h;
  }

  // Slices ----------------------------------------------------------------------------------

  /** A bound below zero counts from the end, as far as the start; one beyond the end is
      the end; and nothing lies between bounds in the wrong order. */
  lemma SliceIs(s: seq<byte>, i: int, j: int)
    ensures 0 <= i <= j <= |s| ==> Slice(s, i, j) == s[i..j]
    ensures i < 0 ==> Slice(s, i, j) == Slice(s, if |s| + i < 0 then 0 else |s| + i, j)
    ensures j < 0 ==> Slice(s, i, j) == Slice(s, i, if |s| + j < 0 then 0 else |s| + j)
    ensures i >= |s| || (0 <= j <= i) ==> Slice(s, i, j) == []
    ensures j > |s| ==> Slice(s, i, j) == Slice(s, i, |s|)
  {
  }
}
