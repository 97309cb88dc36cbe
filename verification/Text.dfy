/** Byte strings that decode as UTF-8 (section 4 of RFC 3629), which is what the
    parsers turn into text, and splitting on a separator. */
module Text {
  import opened Bytes
  import opened Wrappers

  predicate Tail(b: byte) {
    0x80 <= b <= 0xbf
  }

  /** The width of the first encoded character, or 0 if it is malformed. */
  function CharacterWidth(s: seq<byte>): (w: nat)
    requires s != []
    ensures w <= |s|
  {
    var b := s[0];
    if b <= 0x7f then 1
    else if 0xc2 <= b <= 0xdf then
      if |s| >= 2 && Tail(s[1]) then 2 else 0
    else if 0xe0 <= b <= 0xef then
      if && |s| >= 3 && Tail(s[1]) && Tail(s[2])
         && (b == 0xe0 ==> s[1] >= 0xa0) && (b == 0xed ==> s[1] <= 0x9f) then 3 else 0
    else if 0xf0 <= b <= 0xf4 then
      if && |s| >= 4 && Tail(s[1]) && Tail(s[2]) && Tail(s[3])
         && (b == 0xf0 ==> s[1] >= 0x90) && (b == 0xf4 ==> s[1] <= 0x8f) then 4 else 0
    else 0
  }

  predicate Utf8(s: seq<byte>) {
    s != [] ==> CharacterWidth(s) > 0 && Utf8(s[CharacterWidth(s)..])
  }

  predicate Ascii(s: seq<byte>) {
    forall i :: 0 <= i < |s| ==> s[i] < 0x80
  }

  lemma {:induction false} AsciiIsText(s: seq<byte>)
    requires Ascii(s)
    ensures Utf8(s)
    decreases |s|
  {
    if s != [] {
      AsciiIsText(s[1..]);
    }
  }

  const NUL: byte := 0
  const DOT: byte := 0x2e
  const SLASH: byte := 0x2f
  const BACKSLASH: byte := 0x5c

  /** The parts between separators; the result is never empty. */
  function Split(s: seq<byte>, separator: byte): (parts: seq<seq<byte>>)
    ensures |parts| > 0
  {
    if s == [] then [[]]
    else
      var rest := Split(s[1..], separator);
      if s[0] == separator then [[]] + rest else [[s[0]] + rest[0]] + rest[1..]
  }

  function Join(parts: seq<seq<byte>>, separator: byte): seq<byte> {
    if parts == [] then []
    else if |parts| == 1 then parts[0]
    else parts[0] + [separator] + Join(parts[1..], separator)
  }

  lemma {:induction false} SplitPartsAreFree(s: seq<byte>, separator: byte)
    ensures forall p :: p in Split(s, separator) ==> separator !in p
    decreases s
  {
    if s != [] {
      SplitPartsAreFree(s[1..], separator);
      var rest := Split(s[1..], separator);
      assert rest[0] in rest;
      forall p | p in Split(s, separator) ensures separator !in p {
        if s[0] == separator {
          assert p == [] || p in rest;
        } else {
          assert p == [s[0]] + rest[0] || p in rest[1..];
        }
      }
    }
  }

  lemma {:induction false} JoinOfSplit(s: seq<byte>, separator: byte)
    ensures Join(Split(s, separator), separator) == s
    decreases s
  {
    if s != [] {
      var rest := Split(s[1..], separator);
      JoinOfSplit(s[1..], separator);
      if s[0] == separator {
        assert ([[]] + rest)[1..] == rest;
      } else {
        var all := [[s[0]] + rest[0]] + rest[1..];
        assert all[1..] == rest[1..];
      }
    }
  }

  /** A separator-free prefix becomes the head of the first part. */
  lemma {:induction false} SplitPrefix(p: seq<byte>, s: seq<byte>, separator: byte)
    requires separator !in p
    ensures Split(p + s, separator) == [p + Split(s, separator)[0]] + Split(s, separator)[1..]
    decreases p
  {
    if p == [] {
      var parts := Split(s, separator);
      assert p + s == s && p + parts[0] == parts[0];
      assert parts == [parts[0]] + parts[1..];
    } else {
      assert (p + s)[1..] == p[1..] + s;
      SplitPrefix(p[1..], s, separator);
      assert [p[0]] + (p[1..] + Split(s, separator)[0]) == p + Split(s, separator)[0];
    }
  }

  /** Text without separators is one part. */
  lemma SplitWhole(s: seq<byte>, separator: byte)
    requires separator !in s
    ensures Split(s, separator) == [s]
  {
    SplitPrefix(s, [], separator);
    assert s + [] == s;
  }

  lemma SplitAtSeparator(p: seq<byte>, s: seq<byte>, separator: byte)
    requires separator !in p
    ensures Split(p + [separator] + s, separator) == [p] + Split(s, separator)
  {
    var t := [separator] + s;
    assert t[1..] == s;
    assert Split(t, separator) == [[]] + Split(s, separator);
    SplitPrefix(p, t, separator);
    assert p + [separator] + s == p + t;
    assert p + [] == p;
  }

  lemma SplitNothing(separator: byte)
    ensures Split([], separator) == [[]]
  {
  }

  lemma SplitFirst(c: byte, s: seq<byte>, separator: byte)
    ensures Split([c] + s, separator) ==
            if c == separator then [[]] + Split(s, separator)
            else [[c] + Split(s, separator)[0]] + Split(s, separator)[1..]
  {
    assert ([c] + s)[1..] == s;
  }

  lemma {:induction false} SplitJoined(s: seq<byte>, t: seq<byte>, separator: byte)
    ensures Split(s + [separator] + t, separator) == Split(s, separator) + Split(t, separator)
    decreases |s|
  {
    hide Split;
    if s == [] {
      SplitNothing(separator);
      SplitFirst(separator, t, separator);
      assert s + [separator] + t == [separator] + t;
    } else {
      var (c, rest) := (s[0], s[1..]);
      SplitJoined(rest, t, separator);
      SplitFirst(c, rest, separator);
      SplitFirst(c, rest + [separator] + t, separator);
      assert s == [c] + rest && s + [separator] + t == [c] + (rest + [separator] + t);
      PrependSplits(c, Split(rest, separator), Split(t, separator));
    }
  }

  lemma PrependSplits(c: byte, a: seq<seq<byte>>, b: seq<seq<byte>>)
    requires a != []
    ensures [[]] + (a + b) == ([[]] + a) + b
    ensures [[c] + (a + b)[0]] + (a + b)[1..] == ([[c] + a[0]] + a[1..]) + b
  {
    assert (a + b)[0] == a[0] && (a + b)[1..] == a[1..] + b;
  }

  lemma {:induction false} SplitOfJoin(parts: seq<seq<byte>>, separator: byte)
    requires parts != []
    requires forall p :: p in parts ==> separator !in p
    ensures Split(Join(parts, separator), separator) == parts
    decreases |parts|
  {
    if |parts| == 1 {
      SplitPrefix(parts[0], [], separator);
      assert parts[0] + [] == parts[0];
      assert Split([], separator) == [[]];
    } else {
      SplitOfJoin(parts[1..], separator);
      assert parts[0] in parts;
      SplitAtSeparator(parts[0], Join(parts[1..], separator), separator);
    }
  }

  /** The first NUL at or after `from`. */
  function FindNul(s: seq<byte>, from: nat): (r: Option<nat>)
    requires from <= |s|
    ensures r.Some? ==> from <= r.value < |s| && s[r.value] == 0 && 0 !in s[from..r.value]
    ensures r.None? ==> 0 !in s[from..]
    decreases |s| - from
  {
    if from == |s| then None
    else if s[from] == 0 then Some(from)
    else
      assert s[from..] == [s[from]] + s[from + 1..];
      var r := FindNul(s, from + 1);
      assert r.Some? ==> s[from..r.value] == [s[from]] + s[from + 1..r.value];
      r
  }

  predicate AllText(parts: seq<seq<byte>>) {
    forall p :: p in parts ==> Utf8(p)
  }

  lemma WidthBeforeAscii(a: seq<byte>, c: byte, rest: seq<byte>)
    requires a != [] && c < 0x80
    ensures CharacterWidth(a + [c] + rest) == CharacterWidth(a)
  {
    var s := a + [c] + rest;
    assert s[0] == a[0] && s[|a|] == c;
    assert forall i :: 0 <= i < |a| ==> s[i] == a[i];
  }

  /** An ASCII byte is a character of its own, so it never joins what stands around it. */
  lemma {:induction false} Utf8AroundAscii(a: seq<byte>, c: byte, rest: seq<byte>)
    requires c < 0x80
    ensures Utf8(a + [c] + rest) <==> Utf8(a) && Utf8(rest)
    decreases |a|
  {
    var s := a + [c] + rest;
    if a == [] {
      assert s[1..] == rest;
    } else {
      var w := CharacterWidth(a);
      WidthBeforeAscii(a, c, rest);
      if w > 0 {
        assert s[w..] == a[w..] + [c] + rest;
        Utf8AroundAscii(a[w..], c, rest);
      }
    }
  }

  /** The parts between NULs are text exactly when the whole is. */
  lemma {:induction false} PartsAreText(s: seq<byte>)
    ensures AllText(Split(s, NUL)) <==> Utf8(s)
    decreases |s|
  {
    hide Utf8, Split;
    match FindNul(s, 0)
    case None =>
      assert s[0..] == s;
      SplitWhole(s, NUL);
      assert s in Split(s, NUL);
    case Some(end) =>
      var (first, rest) := (s[..end], s[end + 1..]);
      assert s[0..end] == first && s == first + [NUL] + rest;
      SplitAtSeparator(first, rest, NUL);
      Utf8AroundAscii(first, NUL, rest);
      PartsAreText(rest);
      FirstPart(first, Split(rest, NUL));
  }

  lemma FirstPart(first: seq<byte>, rest: seq<seq<byte>>)
    ensures forall p :: p in [first] + rest <==> p == first || p in rest
  {
  }

  lemma {:induction false} FirstNul(s: seq<byte>, from: nat, end: nat)
    requires from <= end < |s| && s[end] == 0 && 0 !in s[from..end]
    ensures FindNul(s, from) == Some(end)
    decreases end - from
  {
    if from < end {
      assert s[from] in s[from..end];
      assert s[from + 1..end] == s[from..end][1..];
      FirstNul(s, from + 1, end);
    }
  }
}
