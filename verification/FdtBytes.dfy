/** Flattened trees by their bytes: exactly which token stands at a position, and one
    artifact written out. Numbers and offsets are those of section 5.4 of the Devicetree
    Specification. */
module FdtBytes {
  import opened Bytes
  import Fdt
  import opened FdtBlob
  import opened FdtShapes
  import opened FdtTokens
  import opened FdtTree
  import opened StoredNumbers
  import opened Text
  import opened Wrappers

  // Tokens -------------------------------------------------------------------------------

  /** A terminated text stands at an offset. */
  ghost predicate TextAt(s: seq<byte>, offset: nat, text: seq<byte>) {
    At(s, offset, text) && offset + |text| < |s| && s[offset + |text|] == 0 && 0 !in text && Utf8(text)
  }

  /** The next multiple of four. */
  ghost predicate Next4(end: nat, next: nat) {
    next % 4 == 0 && end <= next < end + 4
  }

  ghost predicate TokenStands(block: seq<byte>, strings: seq<byte>, position: nat, t: Token, next: nat) {
    match t
    case Begin(name) =>
      BigWordAt(block, position, 1) && TextAt(block, position + 4, name) && Next4(position + 4 + |name| + 1, next)
    case End => BigWordAt(block, position, 2) && next == position + 4
    case Prop(name, value) =>
      && BigWordAt(block, position, 3) && BigWordAt(block, position + 4, |value|) && At(block, position + 12, value)
      && (exists offset :: BigWordAt(block, position + 8, offset) && TextAt(strings, offset, name))
      && Next4(position + 12 + |value|, next)
    case Nop => BigWordAt(block, position, 4) && next == position + 4
    case Finish => BigWordAt(block, position, 9) && next == position + 4
  }

  lemma NulIff(s: seq<byte>, offset: nat, text: seq<byte>)
    requires offset <= |s|
    ensures TextAt(s, offset, text) <==>
            FindNul(s, offset).Some? && text == s[offset..FindNul(s, offset).value] && Utf8(text)
  {
    hide Utf8, FindNul;
    if TextAt(s, offset, text) {
      FirstNul(s, offset, offset + |text|);
    }
  }

  lemma StringIff(strings: seq<byte>, offset: nat, text: seq<byte>)
    ensures StringAt(strings, offset) == Ok(text) <==> TextAt(strings, offset, text)
  {
    hide Utf8, FindNul;
    if offset < |strings| {
      NulIff(strings, offset, text);
    }
  }

  lemma Next4Is(end: nat, next: nat)
    ensures Next4(end, next) <==> next == Align4(end)
  {
  }

  lemma NameReadIff(block: seq<byte>, position: nat, t: Token, next: nat)
    requires position <= |block|
    ensures ReadName(block, position) == Ok(Lexeme(t, next)) <==>
            t.Begin? && TextAt(block, position, t.name) && Next4(position + |t.name| + 1, next)
  {
    hide Utf8, FindNul, Next4, TextAt, Align4;
    if t.Begin? {
      NulIff(block, position, t.name);
      Next4Is(position + |t.name| + 1, next);
    }
  }

  lemma PropertyReadIff(block: seq<byte>, strings: seq<byte>, position: nat, t: Token, next: nat)
    requires position <= |block|
    ensures ReadProperty(block, strings, position) == Ok(Lexeme(t, next)) <==>
            && t.Prop? && BigWordAt(block, position, |t.value|) && At(block, position + 8, t.value)
            && (exists offset :: BigWordAt(block, position + 4, offset) && TextAt(strings, offset, t.name))
            && Next4(position + 8 + |t.value|, next)
  {
    hide Utf8, FindNul, Next4, TextAt, StringAt, Align4, BigWordAt;
    var at := position + 4;
    if t.Prop? && position + 8 <= |block| {
      var (size, offset) := (ReadBe32(block, position), ReadBe32(block, at));
      BigWordIff(block, position, size);
      BigWordIff(block, position, |t.value|);
      forall o: nat ensures BigWordAt(block, at, o) <==> o == offset {
        BigWordIff(block, at, o);
      }
      StringIff(strings, offset, t.name);
      Next4Is(position + 8 + |t.value|, next);
    } else if t.Prop? {
      forall o: nat ensures !BigWordAt(block, at, o) {
        TooShort(block, at, o);
      }
    }
  }

  lemma TooShort(block: seq<byte>, position: nat, v: nat)
    requires position + 4 > |block|
    ensures !BigWordAt(block, position, v)
  {
  }

  /** Exactly which token is read, and where the next one is looked for. */
  lemma TokenIff(block: seq<byte>, strings: seq<byte>, position: nat, t: Token, next: nat)
    requires position + 4 <= |block|
    ensures ReadToken(block, strings, position, true) == Ok(Lexeme(t, next)) <==>
            TokenStands(block, strings, position, t, next)
  {
    hide Next4, TextAt, ReadName, ReadProperty, ReadBe32, BigWordAt, At;
    BigWordIff(block, position, ReadBe32(block, position));
    forall v: nat ensures BigWordAt(block, position, v) <==> v == ReadBe32(block, position) {
      BigWordIff(block, position, v);
    }
    NameReadIff(block, position + 4, t, next);
    PropertyReadIff(block, strings, position + 4, t, next);
  }

  /** A property is an error before the first node opens, and nothing else differs there. */
  lemma OutsideIff(block: seq<byte>, strings: seq<byte>, position: nat)
    requires position + 4 <= |block|
    ensures ReadToken(block, strings, position, false) ==
            if BigWordAt(block, position, 3) then Err(MisplacedProperty) else ReadToken(block, strings, position, true)
  {
    hide ReadName, ReadProperty, ReadBe32, BigWordAt;
    BigWordIff(block, position, 3);
  }

  // A written artifact ---------------------------------------------------------------------

  /** A root with the property `a` of one byte 7, and a child `b`. */
  const SAMPLE: Tree := Tree([], [Entry([0x61], [7]), Node(Tree([0x62], []))])

  const SAMPLE_TOKENS: seq<Token> := [Begin([]), Prop([0x61], [7]), Begin([0x62]), End, End]

  lemma SampleIs()
    ensures TreeIs(SAMPLE, 0, None,
                   [Record([], None, [Property([0x61], [7])], [1]), Record([0x62], Some(0), [], [])], SAMPLE_TOKENS)
  {
    hide TreeIs, ItemsAre;
    var (child, ps) := (Tree([0x62], []), [Property([0x61], [7])]);
    assert Entries([]) == [] && Entries(ps[1..]) == [] && Entries(ps) == [Entry([0x61], [7])];
    Leaf(child, [], 1, Some(0));
    assert PropTokens([]) == [] && PropTokens(ps) == [Prop([0x61], [7])];
    assert [Begin([0x62])] + [] + [End] == [Begin([0x62]), End];
    assert SAMPLE.items == Entries(ps) + [Node(child)];
    OneChild(SAMPLE, ps, 0, None, child, [Record([0x62], Some(0), [], [])], [Begin([0x62]), End]);
    assert [Begin([])] + (PropTokens(ps) + [Begin([0x62]), End]) + [End] == SAMPLE_TOKENS;
    assert [Record([], None, ps, [1])] + [Record([0x62], Some(0), [], [])]
        == [Record([], None, ps, [1]), Record([0x62], Some(0), [], [])];
  }

  lemma StringsOfSample(ts: seq<Token>)
    requires ts == SAMPLE_TOKENS
    ensures Strings(ts) == [0x61, 0] && Strings(ts[..1]) == []
  {
    assert ts[..5] == ts && Strings(ts[..0]) == [];
    hide Strings;
    OneMore(ts, 0);
    OneMore(ts, 1);
    OneMore(ts, 2);
    OneMore(ts, 3);
    OneMore(ts, 4);
  }

  lemma OneMore(ts: seq<Token>, k: nat)
    requires k < |ts|
    ensures Strings(ts[..k + 1]) == Strings(ts[..k]) + if ts[k].Prop? then ts[k].name + [0] else []
  {
    assert ts[..k + 1][..k] == ts[..k];
  }

  lemma FiveParts(c: seq<seq<byte>>)
    requires |c| == 5
    ensures Concat(c) == c[0] + c[1] + c[2] + c[3] + c[4]
  {
    assert c[..5] == c;
    TwoParts(c);
    hide Concat;
    OneMorePart(c, 2);
    OneMorePart(c, 3);
    OneMorePart(c, 4);
  }

  lemma TwoParts(c: seq<seq<byte>>)
    requires |c| >= 2
    ensures Concat(c[..2]) == c[0] + c[1]
  {
    OneMorePart(c, 0);
    OneMorePart(c, 1);
    assert c[..0] == [] && [] + c[0] == c[0];
  }

  lemma OneMorePart(c: seq<seq<byte>>, k: nat)
    requires k < |c|
    ensures Concat(c[..k + 1]) == Concat(c[..k]) + c[k]
  {
    assert c[..k + 1][..k] == c[..k];
  }

  lemma StructureOfSample(ts: seq<Token>)
    requires ts == SAMPLE_TOKENS
    ensures Structure(ts) == [0, 0, 0, 1, 0, 0, 0, 0]
                             + [0, 0, 0, 3, 0, 0, 0, 1, 0, 0, 0, 0, 7, 0, 0, 0]
                             + [0, 0, 0, 1, 0x62, 0, 0, 0] + [0, 0, 0, 2] + [0, 0, 0, 2] + [0, 0, 0, 9]
  {
    hide Strings, Concat, Be32, TokenBytes;
    StringsOfSample(ts);
    var c := Chunks(ts, Offsets(ts));
    FiveParts(c);
    SmallWords();
    NodeBytes(Offsets(ts)[0], Offsets(ts)[2]);
    PropertyBytes();
    EndBytes(Offsets(ts)[3]);
    EndBytes(Offsets(ts)[4]);
    assert Offsets(ts)[1] == |Strings(ts[..1])| == 0;
  }

  lemma NodeBytes(i: nat, j: nat)
    ensures TokenBytes(Begin([]), i) == [0, 0, 0, 1, 0, 0, 0, 0]
    ensures TokenBytes(Begin([0x62]), j) == [0, 0, 0, 1, 0x62, 0, 0, 0]
  {
    SmallWords();
    SmallPads();
    hide Be32, Padded;
    assert [] + [0] == [0] && [0x62] + [0] == [0x62, 0];
  }

  lemma PropertyBytes()
    ensures TokenBytes(Prop([0x61], [7]), 0) == [0, 0, 0, 3, 0, 0, 0, 1, 0, 0, 0, 0, 7, 0, 0, 0]
  {
    SmallWords();
    SmallPads();
    hide Be32, Padded;
    assert [0, 0, 0, 0] + [7, 0, 0, 0] == [0, 0, 0, 0, 7, 0, 0, 0];
    assert [0, 0, 0, 1] + [0, 0, 0, 0, 7, 0, 0, 0] == [0, 0, 0, 1, 0, 0, 0, 0, 7, 0, 0, 0];
  }

  lemma EndBytes(i: nat)
    ensures TokenBytes(End, i) == [0, 0, 0, 2]
  {
    SmallWords();
    hide Be32;
  }

  lemma SmallWords()
    ensures Be32(0) == [0, 0, 0, 0] && Be32(1) == [0, 0, 0, 1] && Be32(2) == [0, 0, 0, 2] && Be32(3) == [0, 0, 0, 3]
    ensures Be32(9) == [0, 0, 0, 9]
  {
  }

  lemma SmallPads()
    ensures Padded([0]) == [0, 0, 0, 0] && Padded([7]) == [7, 0, 0, 0] && Padded([0x62, 0]) == [0x62, 0, 0, 0]
  {
  }

  lemma HeaderOfSample()
    ensures Words(HeaderWords(HeaderFor(44, 2))) ==
            [0xd0, 0x0d, 0xfe, 0xed] + [0, 0, 0, 102] + [0, 0, 0, 56] + [0, 0, 0, 100] + [0, 0, 0, 40] + [0, 0, 0, 17]
            + [0, 0, 0, 16] + [0, 0, 0, 0] + [0, 0, 0, 2] + [0, 0, 0, 44]
  {
    hide Be32, Words;
    var ws := HeaderWords(HeaderFor(44, 2));
    TenWords(ws);
    HeaderNumbers();
  }

  lemma HeaderNumbers()
    ensures Be32(Fdt.MAGIC) == [0xd0, 0x0d, 0xfe, 0xed] && Be32(102) == [0, 0, 0, 102] && Be32(56) == [0, 0, 0, 56]
    ensures Be32(100) == [0, 0, 0, 100] && Be32(40) == [0, 0, 0, 40] && Be32(17) == [0, 0, 0, 17]
    ensures Be32(16) == [0, 0, 0, 16] && Be32(0) == [0, 0, 0, 0] && Be32(2) == [0, 0, 0, 2] && Be32(44) == [0, 0, 0, 44]
  {
  }

  lemma TenWords(ws: seq<nat>)
    requires |ws| == 10
    ensures Words(ws) == Be32(ws[0]) + Be32(ws[1]) + Be32(ws[2]) + Be32(ws[3]) + Be32(ws[4]) + Be32(ws[5])
                         + Be32(ws[6]) + Be32(ws[7]) + Be32(ws[8]) + Be32(ws[9])
  {
    hide Be32, Words;
    FiveWords(ws[..5], ws[5..], ws);
    assert Words([]) == [];
    FiveWords(ws[5..], [], ws[5..]);
  }

  lemma FiveWords(a: seq<nat>, b: seq<nat>, ws: seq<nat>)
    requires |a| == 5 && ws == a + b
    ensures Words(ws) == Be32(a[0]) + Be32(a[1]) + Be32(a[2]) + Be32(a[3]) + Be32(a[4]) + Words(b)
  {
    hide Be32;
    OneMoreWord(ws, 0);
    OneMoreWord(ws, 1);
    OneMoreWord(ws, 2);
    OneMoreWord(ws, 3);
    OneMoreWord(ws, 4);
    assert ws[0..] == ws && ws[5..] == b;
    hide Words;
    FiveJoined(Be32(a[0]), Be32(a[1]), Be32(a[2]), Be32(a[3]), Be32(a[4]), Words(b));
  }

  lemma FiveJoined(a: seq<byte>, b: seq<byte>, c: seq<byte>, d: seq<byte>, e: seq<byte>, rest: seq<byte>)
    ensures a + (b + (c + (d + (e + rest)))) == a + b + c + d + e + rest
  {
    assert d + (e + rest) == d + e + rest;
    assert c + (d + e + rest) == c + d + e + rest;
    assert b + (c + d + e + rest) == b + c + d + e + rest;
  }

  lemma OneMoreWord(ws: seq<nat>, k: nat)
    requires k < |ws|
    ensures Words(ws[k..]) == Be32(ws[k]) + Words(ws[k + 1..])
  {
    assert ws[k..][1..] == ws[k + 1..];
  }

  /** These 102 bytes are accepted, as a root with one property and one child. */
  lemma SampleParses()
    ensures var data :=
      [0xd0, 0x0d, 0xfe, 0xed] + [0, 0, 0, 102] + [0, 0, 0, 56] + [0, 0, 0, 100] + [0, 0, 0, 40] + [0, 0, 0, 17]
      + [0, 0, 0, 16] + [0, 0, 0, 0] + [0, 0, 0, 2] + [0, 0, 0, 44]
      + [0, 0, 0, 0, 0, 0, 0, 0, 0, 0, 0, 0, 0, 0, 0, 0]
      + ([0, 0, 0, 1, 0, 0, 0, 0]
         + [0, 0, 0, 3, 0, 0, 0, 1, 0, 0, 0, 0, 7, 0, 0, 0]
         + [0, 0, 0, 1, 0x62, 0, 0, 0] + [0, 0, 0, 2] + [0, 0, 0, 2] + [0, 0, 0, 9])
      + [0x61, 0];
      && Fdt.Parsed(data).Ok?
      && Fdt.Parsed(data).value.nodes ==
         [Record([], None, [Property([0x61], [7])], [1]), Record([0x62], Some(0), [], [])]
  {
    hide Fdt.Parsed, Words, Structure, Strings, HeaderWords, TextNames, Zeros;
    var ts := SAMPLE_TOKENS;
    SampleIs();
    assert Document(0, SAMPLE, 0) == ts;
    StringsOfSample(ts);
    StructureOfSample(ts);
    HeaderOfSample();
    SixteenZeros();
    SampleNames();
    ArtifactParses(0, SAMPLE, 0);
  }

  lemma SixteenZeros()
    ensures Zeros(RESERVATIONS) == [0, 0, 0, 0, 0, 0, 0, 0, 0, 0, 0, 0, 0, 0, 0, 0]
  {
  }

  lemma SampleNames()
    ensures TextNames(SAMPLE_TOKENS)
  {
    AsciiIsText([0x61]);
    AsciiIsText([0x62]);
    AsciiIsText([]);
    hide Utf8;
  }
}
