/** Hexadecimal numbers: fixed-width digits, and the spellings that Python's
    `int(text, 16)` accepts. */
module Hexadecimal {
  import opened Bytes
  import opened Text
  import opened Wrappers

  // Digits -----------------------------------------------------------------------

  function HexDigit(v: nat): byte
    requires v < 16
  {
    if v < 10 then 0x30 + v else 0x41 + (v - 10)
  }

  predicate IsHexDigit(b: byte) {
    0x30 <= b <= 0x39 || 0x41 <= b <= 0x46 || 0x61 <= b <= 0x66
  }

  predicate AllHex(s: seq<byte>) {
    forall i :: 0 <= i < |s| ==> IsHexDigit(s[i])
  }

  function DigitValue(b: byte): (v: nat)
    requires IsHexDigit(b)
    ensures v < 16
  {
    if b <= 0x39 then b - 0x30 else if b <= 0x46 then b - 0x41 + 10 else b - 0x61 + 10
  }

  /** `v` in upper-case hexadecimal, padded to `width` digits. */
  function Hex(v: nat, width: nat): (h: seq<byte>)
    ensures |h| == width && AllHex(h)
    decreases width, v
  {
    if width == 0 then [] else Hex(v / 16, width - 1) + [HexDigit(v % 16)]
  }

  function HexValue(h: seq<byte>): nat
    requires AllHex(h)
  {
    if h == [] then 0 else HexValue(h[..|h| - 1]) * 16 + DigitValue(h[|h| - 1])
  }

  function HexCapacity(width: nat): nat {
    if width == 0 then 1 else 16 * HexCapacity(width - 1)
  }

  lemma HexCapacityOf8()
    ensures HexCapacity(8) == U32
  {
    assert HexCapacity(4) == 0x1_0000;
    assert HexCapacity(8) == 16 * 16 * 16 * 16 * HexCapacity(4);
  }

  lemma {:induction false} HexRoundTrip(v: nat, width: nat)
    requires v < HexCapacity(width)
    ensures HexValue(Hex(v, width)) == v
    decreases width
  {
    if width > 0 {
      HexRoundTrip(v / 16, width - 1);
      var h := Hex(v, width);
      assert h[..|h| - 1] == Hex(v / 16, width - 1);
    }
  }

  lemma {:induction false} HexValueBound(h: seq<byte>)
    requires AllHex(h)
    ensures HexValue(h) < HexCapacity(|h|)
    decreases |h|
  {
    if h != [] {
      HexValueBound(h[..|h| - 1]);
    }
  }

  // Spellings --------------------------------------------------------------------

  const PLUS: byte := 0x2b
  const MINUS: byte := 0x2d
  const UNDERSCORE: byte := 0x5f

  predicate IsSpace(b: byte) {
    b == 0x20 || 0x09 <= b <= 0x0d
  }

  predicate AllSpace(s: seq<byte>) {
    forall i :: 0 <= i < |s| ==> IsSpace(s[i])
  }

  function TrimLeft(s: seq<byte>): seq<byte> {
    if s != [] && IsSpace(s[0]) then TrimLeft(s[1..]) else s
  }

  function TrimRight(s: seq<byte>): seq<byte> {
    if s != [] && IsSpace(s[|s| - 1]) then TrimRight(s[..|s| - 1]) else s
  }

  function Unsigned(s: seq<byte>): seq<byte> {
    if s != [] && (s[0] == PLUS || s[0] == MINUS) then s[1..] else s
  }

  /** Without `0x` or `0X`, and one underscore after it. */
  function Unprefixed(s: seq<byte>): seq<byte> {
    if |s| >= 2 && s[0] == 0x30 && (s[1] == 0x78 || s[1] == 0x58) then
      if |s| > 2 && s[2] == UNDERSCORE then s[3..] else s[2..]
    else s
  }

  predicate Grouped(groups: seq<seq<byte>>) {
    forall i :: 0 <= i < |groups| ==> groups[i] != [] && AllHex(groups[i])
  }

  lemma {:induction false} GroupedIsHex(groups: seq<seq<byte>>)
    requires Grouped(groups)
    ensures AllHex(Concat(groups))
    decreases |groups|
  {
    var n := |groups| - 1;
    if n >= 0 {
      GroupedIsHex(groups[..n]);
    }
  }

  /** Digits with single underscores between them. */
  function Digits(s: seq<byte>): Option<nat> {
    var groups := Split(s, UNDERSCORE);
    if Grouped(groups) then
      GroupedIsHex(groups);
      Some(HexValue(Concat(groups)))
    else None
  }

  /** `int(text, 16)` */
  function ParseInt(s: seq<byte>): Option<int> {
    var body := TrimRight(TrimLeft(s));
    match Digits(Unprefixed(Unsigned(body)))
    case None => None
    case Some(v) => Some(if body != [] && body[0] == MINUS then 0 - v else v)
  }

  // What is accepted ---------------------------------------------------------------

  predicate IsSign(s: seq<byte>) {
    |s| <= 1 && (s != [] ==> s[0] == PLUS || s[0] == MINUS)
  }

  predicate IsPrefix(s: seq<byte>) {
    s != [] ==>
      2 <= |s| <= 3 && s[0] == 0x30 && (s[1] == 0x78 || s[1] == 0x58) && (|s| == 3 ==> s[2] == UNDERSCORE)
  }

  /** White space around, an optional sign, an optional prefix, and groups of digits
      with single underscores between them. */
  ghost predicate Spells(s: seq<byte>, v: int, before: seq<byte>, sign: seq<byte>, prefix: seq<byte>,
                         groups: seq<seq<byte>>, after: seq<byte>) {
    && s == before + (sign + (prefix + Join(groups, UNDERSCORE))) + after
    && AllSpace(before) && AllSpace(after) && IsSign(sign) && IsPrefix(prefix)
    && groups != [] && Grouped(groups) && AllHex(Concat(groups))
    && v == if sign == [MINUS] then 0 - HexValue(Concat(groups)) else HexValue(Concat(groups))
  }

  lemma {:induction false} LeftTrimmed(s: seq<byte>) returns (before: seq<byte>)
    ensures AllSpace(before) && s == before + TrimLeft(s)
    decreases |s|
  {
    before := [];
    if s != [] && IsSpace(s[0]) {
      before := LeftTrimmed(s[1..]);
      before := [s[0]] + before;
    }
  }

  lemma {:induction false} RightTrimmed(s: seq<byte>) returns (after: seq<byte>)
    ensures AllSpace(after) && s == TrimRight(s) + after
    decreases |s|
  {
    after := [];
    var n := |s| - 1;
    if n >= 0 && IsSpace(s[n]) {
      after := RightTrimmed(s[..n]);
      after := after + [s[n]];
    }
  }

  lemma {:induction false} TrimsLeft(before: seq<byte>, s: seq<byte>)
    requires AllSpace(before) && (s == [] || !IsSpace(s[0]))
    ensures TrimLeft(before + s) == s
    decreases |before|
  {
    if before == [] {
      assert before + s == s;
    } else {
      assert (before + s)[1..] == before[1..] + s;
      TrimsLeft(before[1..], s);
    }
  }

  lemma {:induction false} TrimsRight(s: seq<byte>, after: seq<byte>)
    requires AllSpace(after) && (s == [] || !IsSpace(s[|s| - 1]))
    ensures TrimRight(s + after) == s
    decreases |after|
  {
    var n := |after| - 1;
    if n < 0 {
      assert s + after == s;
    } else {
      assert (s + after)[..|s| + n] == s + after[..n];
      TrimsRight(s, after[..n]);
    }
  }

  lemma {:induction false} JoinedEnds(groups: seq<seq<byte>>, s: seq<byte>)
    requires groups != [] && Grouped(groups) && s == Join(groups, UNDERSCORE)
    ensures s != [] && IsHexDigit(s[0]) && IsHexDigit(s[|s| - 1])
    ensures |s| > 1 ==> IsHexDigit(s[1]) || s[1] == UNDERSCORE
    decreases |groups|
  {
    var first := groups[0];
    assert first != [] && AllHex(first);
    if |groups| > 1 {
      var rest := Join(groups[1..], UNDERSCORE);
      JoinedEnds(groups[1..], rest);
      assert s == first + ([UNDERSCORE] + rest);
    }
  }

  lemma PrefixDropped(prefix: seq<byte>, digits: seq<byte>)
    requires IsPrefix(prefix) && digits != [] && IsHexDigit(digits[0])
    requires |digits| > 1 ==> IsHexDigit(digits[1]) || digits[1] == UNDERSCORE
    ensures Unprefixed(prefix + digits) == digits && IsHexDigit((prefix + digits)[0])
  {
    var s := prefix + digits;
    assert s[|prefix|] == digits[0];
    if prefix == [] {
      assert s == digits;
    } else {
      assert s[0] == prefix[0] && s[1] == prefix[1] && s[|prefix|..] == digits;
    }
  }

  lemma SignDropped(sign: seq<byte>, s: seq<byte>)
    requires IsSign(sign) && s != [] && IsHexDigit(s[0])
    ensures Unsigned(sign + s) == s && !IsSpace((sign + s)[0]) && ((sign + s)[0] == MINUS <==> sign == [MINUS])
  {
    var t := sign + s;
    if sign == [] {
      assert t == s;
    } else {
      assert t[0] == sign[0] && t[1..] == s && sign == [sign[0]];
    }
  }

  /** The text between the white space reads as its sign, prefix and digits. */
  lemma BodyReads(body: seq<byte>, sign: seq<byte>, prefix: seq<byte>, digits: seq<byte>)
    requires body == sign + (prefix + digits) && IsSign(sign) && IsPrefix(prefix)
    requires digits != [] && IsHexDigit(digits[0]) && IsHexDigit(digits[|digits| - 1])
    requires |digits| > 1 ==> IsHexDigit(digits[1]) || digits[1] == UNDERSCORE
    ensures Unprefixed(Unsigned(body)) == digits && (body[0] == MINUS <==> sign == [MINUS])
    ensures !IsSpace(body[0]) && !IsSpace(body[|body| - 1])
  {
    hide Unsigned, Unprefixed;
    PrefixDropped(prefix, digits);
    SignDropped(sign, prefix + digits);
    assert body[|body| - 1] == digits[|digits| - 1];
  }

  lemma HexIsNotUnderscore(groups: seq<seq<byte>>)
    requires Grouped(groups)
    ensures forall g :: g in groups ==> UNDERSCORE !in g
  {
    forall g | g in groups ensures UNDERSCORE !in g {
      var i :| 0 <= i < |groups| && groups[i] == g;
      assert AllHex(groups[i]);
    }
  }

  /** Every such spelling is read as its value. */
  lemma SpellingReads(s: seq<byte>, v: int, before: seq<byte>, sign: seq<byte>, prefix: seq<byte>,
                      groups: seq<seq<byte>>, after: seq<byte>)
    requires Spells(s, v, before, sign, prefix, groups, after)
    ensures ParseInt(s) == Some(v)
  {
    hide Join, Split, TrimLeft, TrimRight, Unsigned, Unprefixed;
    var digits := Join(groups, UNDERSCORE);
    var body := sign + (prefix + digits);
    JoinedEnds(groups, digits);
    BodyReads(body, sign, prefix, digits);
    assert s == before + (body + after);
    TrimsLeft(before, body + after);
    TrimsRight(body, after);
    HexIsNotUnderscore(groups);
    SplitOfJoin(groups, UNDERSCORE);
  }

  lemma PrefixOf(s: seq<byte>) returns (prefix: seq<byte>)
    ensures IsPrefix(prefix) && s == prefix + Unprefixed(s)
  {
    prefix := s[..|s| - |Unprefixed(s)|];
  }

  lemma SignOf(s: seq<byte>) returns (sign: seq<byte>)
    ensures IsSign(sign) && s == sign + Unsigned(s)
    ensures sign == [MINUS] <==> s != [] && s[0] == MINUS
  {
    sign := s[..|s| - |Unsigned(s)|];
  }

  /** Whatever is read is such a spelling. */
  lemma ReadIsSpelled(s: seq<byte>)
    returns (before: seq<byte>, sign: seq<byte>, prefix: seq<byte>, groups: seq<seq<byte>>, after: seq<byte>)
    requires ParseInt(s).Some?
    ensures Spells(s, ParseInt(s).value, before, sign, prefix, groups, after)
  {
    hide Join, Split, TrimLeft, TrimRight, Unsigned, Unprefixed;
    before := LeftTrimmed(s);
    after := RightTrimmed(TrimLeft(s));
    var body := TrimRight(TrimLeft(s));
    sign := SignOf(body);
    prefix := PrefixOf(Unsigned(body));
    var digits := Unprefixed(Unsigned(body));
    groups := Split(digits, UNDERSCORE);
    JoinOfSplit(digits, UNDERSCORE);
    GroupedIsHex(groups);
    assert s == before + (body + after);
  }

  /** Exactly these spellings are read, each as its value. */
  lemma SpelledIff(s: seq<byte>, v: int)
    ensures ParseInt(s) == Some(v) <==>
              exists before, sign, prefix, groups, after :: Spells(s, v, before, sign, prefix, groups, after)
  {
    hide Spells, ParseInt;
    if ParseInt(s) == Some(v) {
      var before, sign, prefix, groups, after := ReadIsSpelled(s);
    }
    if before, sign, prefix, groups, after :| Spells(s, v, before, sign, prefix, groups, after) {
      SpellingReads(s, v, before, sign, prefix, groups, after);
    }
  }

  lemma OneGroup(s: seq<byte>)
    ensures Join([s], UNDERSCORE) == s && Concat([s]) == s
  {
    assert [s][..0] == [] && Concat([s]) == [] + s;
  }

  /** Digits alone have their value. */
  lemma PlainDigitsRead(s: seq<byte>)
    requires s != [] && AllHex(s)
    ensures ParseInt(s) == Some(HexValue(s))
  {
    hide HexValue;
    OneGroup(s);
    assert s == [] + ([] + ([] + s)) + [];
    SpellingReads(s, HexValue(s), [], [], [], [s], []);
  }

  lemma {:induction false} JoinIsLonger(groups: seq<seq<byte>>)
    ensures |Concat(groups)| <= |Join(groups, UNDERSCORE)|
    decreases |groups|
  {
    if groups != [] {
      ConcatStarts(groups);
      JoinIsLonger(groups[1..]);
    }
  }

  lemma {:induction false} CapacityGrows(m: nat, n: nat)
    requires m <= n
    ensures HexCapacity(m) <= HexCapacity(n)
    decreases n
  {
    if m < n {
      CapacityGrows(m, n - 1);
    }
  }

  /** The size of a number is bounded by the length of its text. */
  lemma ReadIsBounded(s: seq<byte>)
    requires ParseInt(s).Some?
    ensures 0 - HexCapacity(|s|) < ParseInt(s).value < HexCapacity(|s|)
  {
    hide Join, ParseInt, HexCapacity;
    var before, sign, prefix, groups, after := ReadIsSpelled(s);
    JoinIsLonger(groups);
    HexValueBound(Concat(groups));
    CapacityGrows(|Concat(groups)|, |s|);
  }
}
