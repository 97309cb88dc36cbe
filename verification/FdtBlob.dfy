/** Whole artifacts for device trees: for every tree a blob that the parser reads back
    as that tree, and a blob of two nodes that their paths cannot tell apart. */
module FdtBlob {
  import opened Bytes
  import opened Fdt
  import opened FdtLinks
  import FdtPaths
  import opened FdtTokens
  import opened FdtTree
  import opened Text
  import opened Wrappers

  // The strings block ------------------------------------------------------------

  /** Every name that is written is NUL-free text. */
  predicate TextName(t: Token) {
    t.Begin? || t.Prop? ==> 0 !in t.name && Utf8(t.name)
  }

  predicate TextNames(ts: seq<Token>) {
    forall i :: 0 <= i < |ts| ==> TextName(ts[i])
  }

  /** The property names in order, each with its NUL. */
  function Strings(ts: seq<Token>): seq<byte>
    decreases |ts|
  {
    if ts == [] then []
    else
      var (rest, last) := (ts[..|ts| - 1], ts[|ts| - 1]);
      Strings(rest) + if last.Prop? then last.name + [0] else []
  }

  function Offsets(ts: seq<Token>): (offsets: seq<nat>)
    ensures |offsets| == |ts| && forall i :: 0 <= i < |ts| ==> offsets[i] == |Strings(ts[..i])|
  {
    seq(|ts|, i requires 0 <= i < |ts| => |Strings(ts[..i])|)
  }

  lemma {:induction false} NameStands(ts: seq<Token>, i: nat)
    requires i < |ts| && ts[i].Prop?
    ensures At(Strings(ts), |Strings(ts[..i])|, ts[i].name + [0])
    decreases |ts|
  {
    var n := |ts| - 1;
    if i < n {
      NameStands(ts[..n], i);
      assert ts[..n][..i] == ts[..i];
    }
  }

  lemma NameFound(strings: seq<byte>, offset: nat, name: seq<byte>)
    requires At(strings, offset, name + [0]) && 0 !in name && Utf8(name)
    ensures offset < |strings| && StringAt(strings, offset) == Ok(name)
  {
    AtSplits(strings, offset, name, [0]);
    var end := offset + |name|;
    assert strings[end] == strings[end..end + 1][0];
    FirstNul(strings, offset, end);
  }

  // The artifact -----------------------------------------------------------------

  function Words(ws: seq<nat>): (b: seq<byte>)
    ensures |b| == 4 * |ws|
  {
    if ws == [] then [] else Be32(ws[0]) + Words(ws[1..])
  }

  lemma {:induction false} WordReadsBack(data: seq<byte>, at: nat, ws: seq<nat>, i: nat)
    requires At(data, at, Words(ws)) && i < |ws| && ws[i] < U32
    ensures at + 4 * i + 4 <= |data| && ReadBe32(data, at + 4 * i) == ws[i]
    decreases i
  {
    AtSplits(data, at, Be32(ws[0]), Words(ws[1..]));
    if i == 0 {
      NumberAt(data, at, ws[0]);
    } else {
      WordReadsBack(data, at + 4, ws[1..], i - 1);
    }
  }

  const RESERVATIONS: nat := 16
  const STRUCTURE: nat := 40 + RESERVATIONS

  function HeaderFor(structureSize: nat, stringsSize: nat): Header {
    Header(STRUCTURE + structureSize + stringsSize, STRUCTURE, STRUCTURE + structureSize, 40, 17, 16, 0,
           stringsSize, structureSize)
  }

  function HeaderWords(h: Header): seq<nat> {
    [MAGIC, h.totalSize, h.structureOffset, h.stringsOffset, h.reserveMapOffset, h.version,
     h.lastCompatibleVersion, h.bootCpuId, h.stringsSize, h.structureSize]
  }

  function Structure(ts: seq<Token>): seq<byte> {
    BlockBytes(ts, Offsets(ts))
  }

  /** The header, no memory reservations, the structure and the strings, as section 5
      of the Devicetree Specification lays them out. */
  function Artifact(ts: seq<Token>): seq<byte> {
    var (structure, strings) := (Structure(ts), Strings(ts));
    Words(HeaderWords(HeaderFor(|structure|, |strings|))) + Zeros(RESERVATIONS) + structure + strings
  }

  lemma HeaderReadsBack(data: seq<byte>, h: Header, words: seq<byte>, ws: seq<nat>)
    requires ws == HeaderWords(h) && words == Words(ws) && words <= data
    requires forall i :: 0 <= i < |ws| ==> ws[i] < U32
    ensures |data| >= 40 && ReadBe32(data, 0) == MAGIC && HeaderOf(data) == h
  {
    hide Words, ReadBe32, Be32;
    assert data[0..40] == words;
    forall i: nat | i < 10 ensures ReadBe32(data, 4 * i) == ws[i] {
      WordReadsBack(data, 0, ws, i);
    }
    WordsOfHeader(data, ws);
  }

  lemma WordsOfHeader(data: seq<byte>, ws: seq<nat>)
    requires |data| >= 40 && |ws| == 10
    requires forall i: nat :: i < 10 ==> ReadBe32(data, 4 * i) == ws[i]
    ensures ReadBe32(data, 0) == ws[0]
    ensures HeaderOf(data) == Header(ws[1], ws[2], ws[3], ws[4], ws[5], ws[6], ws[7], ws[8], ws[9])
  {
    hide ReadBe32;
    assert ReadBe32(data, 4 * 0) == ws[0] && ReadBe32(data, 4 * 1) == ws[1] && ReadBe32(data, 4 * 2) == ws[2];
    assert ReadBe32(data, 4 * 3) == ws[3] && ReadBe32(data, 4 * 4) == ws[4] && ReadBe32(data, 4 * 5) == ws[5];
    assert ReadBe32(data, 4 * 6) == ws[6] && ReadBe32(data, 4 * 7) == ws[7] && ReadBe32(data, 4 * 8) == ws[8];
    assert ReadBe32(data, 4 * 9) == ws[9];
  }

  /** Header, structure and strings stand where the header says. */
  lemma PartsInPlace(data: seq<byte>, words: seq<byte>, structure: seq<byte>, strings: seq<byte>, h: Header)
    requires data == words + Zeros(RESERVATIONS) + structure + strings && |data| < U32
    requires h == HeaderFor(|structure|, |strings|) && words == Words(HeaderWords(h))
    ensures CheckHeader(data).None? && HeaderOf(data) == h && h.totalSize == |data|
    ensures StringsOf(data) == strings && At(BlockOf(data), STRUCTURE, structure)
  {
    hide Words, HeaderOf, ReadBe32;
    assert words <= data;
    HeaderReadsBack(data, h, words, HeaderWords(h));
    var end := STRUCTURE + |structure|;
    assert data[end..end + |strings|] == strings;
    assert data[..end][STRUCTURE..end] == structure;
  }

  // Reading it back --------------------------------------------------------------

  lemma {:induction false} PartFits(parts: seq<seq<byte>>, i: nat)
    requires i < |parts|
    ensures |parts[i]| <= |Concat(parts)|
    decreases |parts|
  {
    var n := |parts| - 1;
    if i < n {
      PartFits(parts[..n], i);
    }
  }

  lemma ValueFits(ts: seq<Token>, i: nat)
    requires i < |ts| && ts[i].Prop?
    ensures |ts[i].value| < |Structure(ts)|
  {
    hide Concat;
    PartFits(Chunks(ts, Offsets(ts)), i);
  }

  lemma TokenIsWritable(ts: seq<Token>, i: nat)
    requires i < |ts| && TextName(ts[i]) && ts[i] != Finish
    requires |Structure(ts)| < U32 && |Strings(ts)| < U32
    ensures WritableAt(ts, Strings(ts), Offsets(ts), i)
  {
    hide Structure, Strings;
    if ts[i].Prop? {
      ValueFits(ts, i);
      NameStands(ts, i);
      NameFound(Strings(ts), |Strings(ts[..i])|, ts[i].name);
    }
  }

  /** What runs contains no end of block. */
  lemma {:induction false} RunsWithoutFinish(m: Machine, ts: seq<Token>)
    requires StackInside(m) && Run(m, ts).Ok?
    ensures Finish !in ts
    decreases |ts|
  {
    if ts != [] {
      RunsWithoutFinish(Step(m, ts[0]).value, ts[1..]);
    }
  }

  /** Every tree whose names are NUL-free text and whose artifact fits 32-bit sizes is
      accepted and read back: the same records, the same value, nothing after it. */
  lemma ArtifactParses(before: nat, t: Tree, after: nat)
    requires var ts := Document(before, t, after); TextNames(ts) && |Artifact(ts)| < U32
    ensures var data := Artifact(Document(before, t, after));
      Parsed(data).Ok? && var flat := Parsed(data).value;
      && flat.header.totalSize == |data| && flat.trailer == [] && flat.nodes == Layout(t, 0, None)
      && Descending(flat.nodes) && ValueAt(flat.nodes, 0) == Meaning(t)
      && (DistinctTree(t) ==> ValueAt(flat.nodes, 0) == Exact(t))
  {
    hide Words, Structure, Strings, Document, TextName, StringsOf, BlockOf, At, WritableAt, Run, HeaderWords,
         CheckHeader, HeaderOf, Layout, Meaning, Exact, DistinctTree, Descending, ValueAt, Parsed;
    var ts := Document(before, t, after);
    var (data, structure, strings) := (Artifact(ts), Structure(ts), Strings(ts));
    var h := HeaderFor(|structure|, |strings|);
    PartsInPlace(data, Words(HeaderWords(h)), structure, strings, h);
    DocumentIsBuilt(before, t, after);
    RunsWithoutFinish(EMPTY, ts);
    forall i | 0 <= i < |ts| ensures WritableAt(ts, strings, Offsets(ts), i) {
      TokenIsWritable(ts, i);
    }
    StructureIsBlock(ts);
    TreeRoundTrip(data, before, t, after, Offsets(ts));
    HeaderParsed(data);
  }

  lemma StructureIsBlock(ts: seq<Token>)
    ensures Structure(ts) == BlockBytes(ts, Offsets(ts))
  {
  }

  lemma HeaderParsed(data: seq<byte>)
    requires Parsed(data).Ok?
    ensures CheckHeader(data).None? && Parsed(data).value.header == HeaderOf(data)
    ensures Parsed(data).value.trailer == data[HeaderOf(data).totalSize..]
  {
  }

  // Accepted artifacts -----------------------------------------------------------

  lemma ReadNamesAreText(block: seq<byte>, strings: seq<byte>, position: nat)
    requires position + 4 <= |block| && ReadToken(block, strings, position, true).Ok?
    ensures TextName(ReadToken(block, strings, position, true).value.token)
  {
  }

  lemma AcceptedNamesAreText(block: seq<byte>, strings: seq<byte>, position: nat)
    requires Lex(block, strings, position).Ok?
    ensures TextNames(Lex(block, strings, position).value)
  {
    hide LexWith, ReadToken, TextName;
    var ts := Lex(block, strings, position).value;
    forall i | 0 <= i < |ts| ensures TextName(ts[i]) {
      var at := ValuesFrom(Reader(block, strings), |block|, position, i);
      ReadNamesAreText(block, strings, at);
    }
  }

  /** Every accepted artifact can be written again from its tokens, unless that needs
      more than 32 bits of size, and then parses to the same records. */
  lemma AcceptedNormalises(data: seq<byte>) returns (ts: seq<Token>)
    requires Parsed(data).Ok?
    ensures CheckHeader(data).None? && Lex(BlockOf(data), StringsOf(data), HeaderOf(data).structureOffset) == Ok(ts)
    ensures |Artifact(ts)| < U32 ==>
              Parsed(Artifact(ts)).Ok? && Parsed(Artifact(ts)).value.nodes == Parsed(data).value.nodes
  {
    hide Artifact, TextNames, Parsed, Lex, Document;
    var before, t, after := AcceptedMeaning(data);
    ts := Document(before, t, after);
    AcceptedNamesAreText(BlockOf(data), StringsOf(data), HeaderOf(data).structureOffset);
    if |Artifact(ts)| < U32 {
      ArtifactParses(before, t, after);
    }
  }

  // Sizes ------------------------------------------------------------------------

  predicate Small(t: Token, most: nat) {
    && 16 <= most && (t.Begin? || t.Prop? ==> |t.name| + 16 <= most)
    && (t.Prop? ==> |t.value| + 16 <= most)
  }

  lemma SmallChunk(t: Token, offset: nat, most: nat)
    requires Small(t, most)
    ensures |TokenBytes(t, offset)| <= most
  {
  }

  lemma {:induction false} ConcatFits(parts: seq<seq<byte>>, most: nat)
    requires forall i :: 0 <= i < |parts| ==> |parts[i]| <= most
    ensures |Concat(parts)| <= most * |parts|
    decreases |parts|
  {
    var n := |parts| - 1;
    if n >= 0 {
      ConcatFits(parts[..n], most);
      assert most * (n + 1) == most * n + most;
    }
  }

  lemma {:induction false} StringsFit(ts: seq<Token>, most: nat)
    requires forall i :: 0 <= i < |ts| ==> Small(ts[i], most)
    ensures |Strings(ts)| <= most * |ts|
    decreases |ts|
  {
    var n := |ts| - 1;
    if n >= 0 {
      StringsFit(ts[..n], most);
      assert most * (n + 1) == most * n + most;
    }
  }

  lemma ArtifactFits(ts: seq<Token>, most: nat)
    requires forall i :: 0 <= i < |ts| ==> Small(ts[i], most)
    ensures |Artifact(ts)| <= 60 + 2 * (most * |ts|)
  {
    hide Strings, Concat, TokenBytes, Words;
    var chunks := Chunks(ts, Offsets(ts));
    forall i | 0 <= i < |ts| ensures |chunks[i]| <= most {
      SmallChunk(ts[i], Offsets(ts)[i], most);
    }
    hide Small;
    ConcatFits(chunks, most);
    StringsFit(ts, most);
  }

  // Two nodes of one path ----------------------------------------------------------

  const NAME: seq<byte> := [0x61]

  const LEAF: Item := Node(Tree(NAME, []))

  /** A root with two children of one name. */
  const TWINS: Tree := Tree([], [LEAF, LEAF])

  const TWIN_NODES: seq<Record> :=
    [Record([], None, [], [1, 2]), Record(NAME, Some(0), [], []), Record(NAME, Some(0), [], [])]

  lemma LeafItem(base: nat, rest: seq<Item>, items: seq<Item>)
    requires items == [LEAF] + rest
    ensures SizeItem(LEAF) == 1
    ensures LayoutItems(items, base, 0) == [Record(NAME, Some(0), [], [])] + LayoutItems(rest, base + 1, 0)
    ensures FlattenItems(items) == [Begin(NAME), End] + FlattenItems(rest)
    ensures ChildrenOf(items, base) == [base] + ChildrenOf(rest, base + 1)
    ensures PropertiesOf(items, []) == PropertiesOf(rest, [])
  {
    assert items[0] == LEAF && items[1..] == rest;
    var t := LEAF.tree;
    assert SizeItems(t.items) == 0 && Size(t) == 1;
    assert Layout(t, base, Some(0)) == [Record(NAME, Some(0), [], [])];
    assert FlattenItems(t.items) == [] && Flatten(t) == [Begin(NAME), End];
  }

  lemma NoItems()
    ensures LayoutItems([], 3, 0) == [] && FlattenItems([]) == []
    ensures ChildrenOf([], 3) == [] && PropertiesOf([], []) == []
  {
  }

  lemma TwinsLayout()
    ensures Layout(TWINS, 0, None) == TWIN_NODES
    ensures Flatten(TWINS) == [Begin([]), Begin(NAME), End, Begin(NAME), End, End]
  {
    hide Grown, LayoutItems, FlattenItems, SizeItem, ChildrenOf, PropertiesOf;
    var items := TWINS.items;
    NoItems();
    LeafItem(2, [], [LEAF]);
    LeafItem(1, [LEAF], items);
    GrownIs(Record([], None, [], []), items, 1);
    assert ChildrenOf(items, 1) == [1, 2] && [] + ChildrenOf(items, 1) == ChildrenOf(items, 1);
    assert LayoutItems(items, 1, 0) == TWIN_NODES[1..] && [TWIN_NODES[0]] + TWIN_NODES[1..] == TWIN_NODES;
  }

  lemma TwinsLinked()
    ensures Linked(TWIN_NODES)
  {
    var nodes := TWIN_NODES;
    assert nodes[0].children[0] == 1 && nodes[0].children[1] == 2;
    assert forall k :: 0 <= k < 3 ==> ParentLink(nodes, k) && ChildLinks(nodes, k);
  }

  lemma TwinPaths(nodes: seq<Record>, path: seq<byte>)
    requires nodes == TWIN_NODES && Linked(nodes) && path == [] + [SLASH] + NAME
    ensures FdtPaths.Path(nodes, 2) == path && FdtPaths.Find(nodes, path) == Some(1)
  {
    hide Linked, Split, FdtPaths.NonEmpty;
    assert FdtPaths.Path(nodes, 0) == [SLASH] && [SLASH][..0] == [];
    assert FdtPaths.WithoutTrailingSlashes([SLASH]) == FdtPaths.WithoutTrailingSlashes([]) == [];
    assert nodes[2].parent == Some(0) && FdtPaths.Path(nodes, 2) == path;
    NamesOfPath(path);
    FirstTwin(nodes);
  }

  lemma NamesOfPath(path: seq<byte>)
    requires path == [] + [SLASH] + NAME
    ensures FdtPaths.NonEmpty(Split(path, SLASH)) == [NAME] && path != [SLASH]
  {
    hide Split;
    SplitNothing(SLASH);
    FdtPaths.PlainStep([], NAME, path);
  }

  lemma FirstTwin(nodes: seq<Record>)
    requires nodes == TWIN_NODES && Linked(nodes)
    ensures FdtPaths.Descend(nodes, 0, [NAME]) == Some(1)
  {
    hide Linked;
    assert FdtPaths.Child(nodes, 0, NAME) == Some(1);
    assert [NAME][1..] == [] && FdtPaths.Descend(nodes, 1, []) == Some(1);
  }

  lemma TwinsFit(ts: seq<Token>)
    requires ts == [Begin([]), Begin(NAME), End, Begin(NAME), End, End]
    ensures TextNames(ts) && |Artifact(ts)| < U32
  {
    hide Artifact;
    forall i | 0 <= i < 6 ensures Small(ts[i], 17) {
      assert |NAME| == 1;
    }
    ArtifactFits(ts, 17);
  }

  /** The parser accepts an artifact with a node that its own path does not find. */
  lemma TwinsAccepted()
    ensures var data := Artifact(Document(0, TWINS, 0));
      Parsed(data).Ok? && var nodes := Parsed(data).value.nodes;
      |nodes| == 3 && Linked(nodes) && FdtPaths.Find(nodes, FdtPaths.Path(nodes, 2)) == Some(1)
  {
    hide Parsed, Artifact, Layout, Flatten, TextNames;
    var ts := Document(0, TWINS, 0);
    TwinsLayout();
    assert ts == Flatten(TWINS);
    TwinsFit(ts);
    ArtifactParses(0, TWINS, 0);
    TwinsLinked();
    TwinPaths(TWIN_NODES, [] + [SLASH] + NAME);
  }
}
