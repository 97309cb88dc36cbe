/** Packing a kernel, a device tree and perhaps a ramdisk into a FIT and extracting them
    again. */
module FitRoundTrip {
  import opened Bytes
  import Fdt
  import opened FdtBlob
  import opened FdtLinks
  import opened FdtPaths
  import opened FdtShapes
  import opened FdtTokens
  import opened FdtTree
  import opened Fit
  import opened FitExtraction
  import FitReports
  import FitSelection
  import opened Text
  import opened Wrappers

  // The container ------------------------------------------------------------------

  /** An image: its name and type, its compression if it declares one, and its digest. */
  datatype Image = Image(
    name: seq<byte>, kind: seq<byte>, compression: Option<seq<byte>>, payload: seq<byte>, digest: seq<byte>)

  function ImageProperties(image: Image): (ps: seq<Property>)
    ensures DistinctNames(ps)
  {
    if image.compression.None? then [Property(TYPE, image.kind), Property(DATA, image.payload)]
    else
      assert TYPE[0] == 0x74 && COMPRESSION[0] == 0x63 && DATA[0] == 0x64;
      [Property(TYPE, image.kind), Property(COMPRESSION, image.compression.value), Property(DATA, image.payload)]
  }

  function HashProperties(algorithm: seq<byte>, digest: seq<byte>): (ps: seq<Property>)
    ensures DistinctNames(ps)
  {
    [Property(ALGO, algorithm + [0]), Property(VALUE, digest)]
  }

  function HashTree(algorithm: seq<byte>, digest: seq<byte>): Tree {
    Tree(HASH, Entries(HashProperties(algorithm, digest)))
  }

  function ImageTree(image: Image, algorithm: seq<byte>): Tree {
    Tree(image.name, Entries(ImageProperties(image)) + [Node(HashTree(algorithm, image.digest))])
  }

  function ImageItems(images: seq<Image>, algorithm: seq<byte>): seq<Item> {
    if images == [] then [] else [Node(ImageTree(images[0], algorithm))] + ImageItems(images[1..], algorithm)
  }

  /** A container of images, each with its hash, and one configuration. */
  function FitTree(images: seq<Image>, name: seq<byte>, conf: seq<Property>, algorithm: seq<byte>): Tree {
    Tree([], [Node(Tree(IMAGES, ImageItems(images, algorithm))),
              Node(Tree(CONFIGURATIONS, [Node(Tree(name, Entries(conf)))]))])
  }

  function FitArtifact(images: seq<Image>, name: seq<byte>, conf: seq<Property>, algorithm: seq<byte>): seq<byte> {
    Artifact(Document(0, FitTree(images, name, conf, algorithm), 0))
  }

  // Its records and tokens -----------------------------------------------------------

  function HashRecord(parent: nat, algorithm: seq<byte>, digest: seq<byte>): Record {
    Record(HASH, Some(parent), HashProperties(algorithm, digest), [])
  }

  function ImageRecord(image: Image, hash: nat): Record {
    Record(image.name, Some(1), ImageProperties(image), [hash])
  }

  function ImageRecords(images: seq<Image>, algorithm: seq<byte>, next: nat): (r: seq<Record>)
    ensures |r| == 2 * |images|
    decreases |images|
  {
    if images == [] then []
    else
      [ImageRecord(images[0], next + 1), HashRecord(next, algorithm, images[0].digest)]
      + ImageRecords(images[1..], algorithm, next + 2)
  }

  function Places(next: nat, n: nat): (p: seq<nat>)
    ensures |p| == n && forall i :: 0 <= i < n ==> p[i] == next + 2 * i
  {
    seq(n, i requires 0 <= i < n => next + 2 * i)
  }

  function FitNodes(images: seq<Image>, name: seq<byte>, conf: seq<Property>, algorithm: seq<byte>): seq<Record> {
    var c := 2 + 2 * |images|;
    [Record([], None, [], [1, c])]
    + (([Record(IMAGES, Some(0), [], Places(2, |images|))] + ImageRecords(images, algorithm, 2))
       + ([Record(CONFIGURATIONS, Some(0), [], [c + 1])] + [Record(name, Some(c), conf, [])]))
  }

  function HashTokens(algorithm: seq<byte>, digest: seq<byte>): seq<Token> {
    [Begin(HASH)] + PropTokens(HashProperties(algorithm, digest)) + [End]
  }

  function ImageTokens(image: Image, algorithm: seq<byte>): seq<Token> {
    [Begin(image.name)] + (PropTokens(ImageProperties(image)) + HashTokens(algorithm, image.digest)) + [End]
  }

  function AllImageTokens(images: seq<Image>, algorithm: seq<byte>): seq<Token> {
    if images == [] then [] else ImageTokens(images[0], algorithm) + AllImageTokens(images[1..], algorithm)
  }

  function FitTokens(images: seq<Image>, name: seq<byte>, conf: seq<Property>, algorithm: seq<byte>): seq<Token> {
    [Begin([])]
    + (([Begin(IMAGES)] + AllImageTokens(images, algorithm) + [End])
       + ([Begin(CONFIGURATIONS)] + ([Begin(name)] + PropTokens(conf) + [End]) + [End]))
    + [End]
  }

  lemma ImageIs(image: Image, algorithm: seq<byte>, base: nat)
    ensures TreeIs(ImageTree(image, algorithm), base, Some(1),
                   [ImageRecord(image, base + 1), HashRecord(base, algorithm, image.digest)],
                   ImageTokens(image, algorithm))
  {
    hide TreeIs, ImageProperties, HashProperties, Entries, DistinctNames;
    var hash := HashTree(algorithm, image.digest);
    var first := HashRecord(base, algorithm, image.digest);
    Leaf(hash, HashProperties(algorithm, image.digest), base + 1, Some(base));
    OneChild(ImageTree(image, algorithm), ImageProperties(image), base, Some(1), hash, [first],
             HashTokens(algorithm, image.digest));
    assert [ImageRecord(image, base + 1)] + [first] == [ImageRecord(image, base + 1), first];
  }

  lemma {:induction false} ImagesAre(images: seq<Image>, algorithm: seq<byte>, next: nat)
    ensures ItemsAre(ImageItems(images, algorithm), next, 1, ImageRecords(images, algorithm, next),
                     Places(next, |images|), [], AllImageTokens(images, algorithm))
    decreases |images|
  {
    hide ItemsAre, TreeIs, ImageTree, ImageTokens, ImageRecord, HashRecord;
    if images == [] {
      NoItemsAre(next, 1);
      assert Places(next, 0) == [];
    } else {
      var (image, rest) := (images[0], images[1..]);
      ImageIs(image, algorithm, next);
      ImagesAre(rest, algorithm, next + 2);
      TreeFirst(ImageItems(images, algorithm), ImageTree(image, algorithm), ImageItems(rest, algorithm), next, 1,
                [ImageRecord(image, next + 1), HashRecord(next, algorithm, image.digest)],
                ImageTokens(image, algorithm), ImageRecords(rest, algorithm, next + 2), Places(next + 2, |rest|), [],
                AllImageTokens(rest, algorithm));
      assert [next] + Places(next + 2, |rest|) == Places(next, |images|);
    }
  }

  lemma ConfigurationsAre(name: seq<byte>, conf: seq<Property>, base: nat)
    requires DistinctNames(conf)
    ensures TreeIs(Tree(CONFIGURATIONS, [Node(Tree(name, Entries(conf)))]), base, Some(0),
                   [Record(CONFIGURATIONS, Some(0), [], [base + 1])] + [Record(name, Some(base), conf, [])],
                   [Begin(CONFIGURATIONS)] + ([Begin(name)] + PropTokens(conf) + [End]) + [End])
  {
    hide TreeIs, DistinctNames;
    var t := Tree(name, Entries(conf));
    Leaf(t, conf, base + 1, Some(base));
    assert Entries([]) + [Node(t)] == [Node(t)];
    NoNames();
    OneChild(Tree(CONFIGURATIONS, [Node(t)]), [], base, Some(0), t, [Record(name, Some(base), conf, [])],
             [Begin(name)] + PropTokens(conf) + [End]);
    assert PropTokens([]) + ([Begin(name)] + PropTokens(conf) + [End]) == [Begin(name)] + PropTokens(conf) + [End];
  }

  lemma NoNames()
    ensures DistinctNames([])
  {
  }

  lemma FitIs(images: seq<Image>, name: seq<byte>, conf: seq<Property>, algorithm: seq<byte>)
    requires DistinctNames(conf)
    ensures TreeIs(FitTree(images, name, conf, algorithm), 0, None, FitNodes(images, name, conf, algorithm),
                   FitTokens(images, name, conf, algorithm))
  {
    hide TreeIs, ItemsAre, DistinctNames, ImageItems, ImageRecords, AllImageTokens, Entries;
    var all := Tree(IMAGES, ImageItems(images, algorithm));
    var other := Tree(CONFIGURATIONS, [Node(Tree(name, Entries(conf)))]);
    var c := 2 + 2 * |images|;
    ImagesAre(images, algorithm, 2);
    NoNames();
    TreeOfItems(all, 1, Some(0), ImageRecords(images, algorithm, 2), Places(2, |images|), [],
                AllImageTokens(images, algorithm));
    ConfigurationsAre(name, conf, c);
    TwoChildren(FitTree(images, name, conf, algorithm), 0, None, all, other,
                [Record(IMAGES, Some(0), [], Places(2, |images|))] + ImageRecords(images, algorithm, 2),
                [Begin(IMAGES)] + AllImageTokens(images, algorithm) + [End],
                [Record(CONFIGURATIONS, Some(0), [], [c + 1])] + [Record(name, Some(c), conf, [])],
                [Begin(CONFIGURATIONS)] + ([Begin(name)] + PropTokens(conf) + [End]) + [End]);
  }

  // Parsing it -------------------------------------------------------------------------

  ghost predicate NamesAreLetters(images: seq<Image>, name: seq<byte>, conf: seq<Property>) {
    && Letters(name) && (forall i :: 0 <= i < |images| ==> Letters(images[i].name))
    && forall i :: 0 <= i < |conf| ==> Letters(conf[i].name)
  }

  lemma ImageTokensLettered(image: Image, algorithm: seq<byte>)
    requires Letters(image.name)
    ensures LetterNames(ImageTokens(image, algorithm))
  {
    assert Letters(HASH) && Letters(ALGO) && Letters(VALUE) && Letters(TYPE) && Letters(DATA) && Letters(COMPRESSION);
    hide Letters;
    var (a, b) := (PropTokens(ImageProperties(image)), HashTokens(algorithm, image.digest));
    assert LetterNames(a) && LetterNames(b);
    LetterNamesJoined(a, b);
    LetterNamesJoined([Begin(image.name)], a + b);
    LetterNamesJoined([Begin(image.name)] + (a + b), [End]);
  }

  lemma {:induction false} AllImagesLettered(images: seq<Image>, algorithm: seq<byte>)
    requires forall i :: 0 <= i < |images| ==> Letters(images[i].name)
    ensures LetterNames(AllImageTokens(images, algorithm))
    decreases |images|
  {
    hide Letters, ImageTokens, LetterName;
    if images != [] {
      ImageTokensLettered(images[0], algorithm);
      AllImagesLettered(images[1..], algorithm);
      LetterNamesJoined(ImageTokens(images[0], algorithm), AllImageTokens(images[1..], algorithm));
    }
  }

  lemma FitTokensLettered(images: seq<Image>, name: seq<byte>, conf: seq<Property>, algorithm: seq<byte>)
    requires NamesAreLetters(images, name, conf)
    ensures LetterNames(FitTokens(images, name, conf, algorithm))
  {
    assert Letters([]) && Letters(IMAGES) && Letters(CONFIGURATIONS);
    var (a, b) := (AllImageTokens(images, algorithm), PropTokens(conf));
    AllImagesLettered(images, algorithm);
    assert LetterNames(b);
    hide Letters, AllImageTokens, PropTokens;
    LetteredNode(IMAGES, a);
    LetteredNode(name, b);
    LetteredNode(CONFIGURATIONS, [Begin(name)] + b + [End]);
    var left := [Begin(IMAGES)] + a + [End];
    var right := [Begin(CONFIGURATIONS)] + ([Begin(name)] + b + [End]) + [End];
    LetterNamesJoined(left, right);
    LetteredNode([], left + right);
  }

  lemma LetteredNode(name: seq<byte>, inside: seq<Token>)
    requires Letters(name) && LetterNames(inside)
    ensures LetterNames([Begin(name)] + inside + [End])
  {
    hide Letters;
    LetterNamesJoined([Begin(name)], inside);
    LetterNamesJoined([Begin(name)] + inside, [End]);
  }

  lemma LettersAreText(s: seq<byte>)
    requires Letters(s)
    ensures 0 !in s && Utf8(s)
  {
    AsciiIsText(s);
  }

  lemma LettersAreNames(ts: seq<Token>)
    requires LetterNames(ts)
    ensures TextNames(ts)
  {
    hide Utf8, Letters;
    forall i | 0 <= i < |ts| ensures TextName(ts[i]) {
      assert LetterName(ts[i]);
      if ts[i].Begin? || ts[i].Prop? {
        LettersAreText(ts[i].name);
      }
    }
  }

  lemma FitParses(images: seq<Image>, name: seq<byte>, conf: seq<Property>, algorithm: seq<byte>)
    requires NamesAreLetters(images, name, conf) && DistinctNames(conf)
    requires |FitArtifact(images, name, conf, algorithm)| < U32
    ensures var parsed := Fdt.Parsed(FitArtifact(images, name, conf, algorithm));
      && parsed.Ok? && parsed.value.nodes == FitNodes(images, name, conf, algorithm) && parsed.value.trailer == []
  {
    hide FitTree, FitTokens, FitNodes, Artifact, TextNames, Fdt.Parsed, LetterNames, DistinctNames, NamesAreLetters;
    var t := FitTree(images, name, conf, algorithm);
    var ts := Document(0, t, 0);
    FitIs(images, name, conf, algorithm);
    assert ts == FitTokens(images, name, conf, algorithm);
    FitTokensLettered(images, name, conf, algorithm);
    LettersAreNames(ts);
    ArtifactParses(0, t, 0);
  }

  // Its nodes --------------------------------------------------------------------------

  lemma {:induction false} ImageRecordAt(images: seq<Image>, algorithm: seq<byte>, next: nat, i: nat)
    requires i < |images|
    ensures var r := ImageRecords(images, algorithm, next);
      && r[2 * i] == ImageRecord(images[i], next + 2 * i + 1)
      && r[2 * i + 1] == HashRecord(next + 2 * i, algorithm, images[i].digest)
    decreases i
  {
    hide ImageRecord, HashRecord;
    if i > 0 {
      ImageRecordAt(images[1..], algorithm, next + 2, i - 1);
    }
  }

  lemma FitNodesAt(nodes: seq<Record>, images: seq<Image>, name: seq<byte>, conf: seq<Property>, algorithm: seq<byte>)
    requires nodes == FitNodes(images, name, conf, algorithm)
    ensures var c := 2 + 2 * |images|;
      && |nodes| == c + 2 && nodes[0] == Record([], None, [], [1, c])
      && nodes[1] == Record(IMAGES, Some(0), [], Places(2, |images|))
      && nodes[c] == Record(CONFIGURATIONS, Some(0), [], [c + 1]) && nodes[c + 1] == Record(name, Some(c), conf, [])
    ensures forall i :: 0 <= i < |images| ==>
              && nodes[2 + 2 * i] == ImageRecord(images[i], 3 + 2 * i)
              && nodes[3 + 2 * i] == HashRecord(2 + 2 * i, algorithm, images[i].digest)
  {
    hide ImageRecord, HashRecord, ImageRecords;
    var (c, all) := (2 + 2 * |images|, ImageRecords(images, algorithm, 2));
    var (a, b) := ([Record(IMAGES, Some(0), [], Places(2, |images|))] + all,
                   [Record(CONFIGURATIONS, Some(0), [], [c + 1])] + [Record(name, Some(c), conf, [])]);
    JoinedAt(nodes, [Record([], None, [], [1, c])], a + b);
    JoinedAt(a + b, a, b);
    JoinedAt(a, [a[0]], all);
    forall i | 0 <= i < |images|
      ensures nodes[2 + 2 * i] == ImageRecord(images[i], 3 + 2 * i)
      ensures nodes[3 + 2 * i] == HashRecord(2 + 2 * i, algorithm, images[i].digest)
    {
      ImageRecordAt(images, algorithm, 2, i);
      assert nodes[2 + 2 * i] == (a + b)[1 + 2 * i] == a[1 + 2 * i] == all[2 * i];
      assert nodes[3 + 2 * i] == (a + b)[2 + 2 * i] == a[2 + 2 * i] == all[2 * i + 1];
    }
  }

  lemma JoinedAt(s: seq<Record>, a: seq<Record>, b: seq<Record>)
    requires s == a + b
    ensures |s| == |a| + |b|
    ensures forall i :: 0 <= i < |s| ==> s[i] == if i < |a| then a[i] else b[i - |a|]
  {
  }

  /** A path of one part names a child of the root. */
  lemma FindsChild(nodes: seq<Record>, name: seq<byte>, k: nat)
    requires Linked(nodes) && nodes != [] && PlainName(name) && k < |nodes| && Child(nodes, 0, name) == Some(k)
    ensures Find(nodes, [SLASH] + name) == Some(k)
  {
    hide Linked, Split, Child, PlainName;
    var path := [SLASH] + name;
    assert path == [] + [SLASH] + name;
    SplitNothing(SLASH);
    PlainStep([], name, path);
    assert NonEmpty(Split([], SLASH)) == [] && [] + [name] == [name];
    assert [name][1..] == [] && Descend(nodes, k, []) == Some(k);
  }

  lemma ImagesFound(nodes: seq<Record>, c: nat)
    requires 1 < c < |nodes| && Linked(nodes) && nodes[0].children == [1, c]
    requires nodes[1].name == IMAGES && nodes[c].name == CONFIGURATIONS
    ensures Find(nodes, IMAGES_PATH) == Some(1) && Find(nodes, CONFIGURATIONS_PATH) == Some(c)
  {
    hide Linked;
    assert |IMAGES| == 6 && |CONFIGURATIONS| == 14;
    assert nodes[0].children[0] == 1 && nodes[0].children[1] == c;
    FitSelection.ChildIff(nodes, 0, IMAGES, 1);
    FitSelection.ChildIff(nodes, 0, CONFIGURATIONS, c);
    FindsChild(nodes, IMAGES, 1);
    FindsChild(nodes, CONFIGURATIONS, c);
  }

  // Reading its nodes ------------------------------------------------------------------

  predicate AlgorithmName(algorithm: seq<byte>) {
    algorithm != [] && Letters(algorithm)
  }

  /** The stored digest is that of the payload. */
  ghost predicate Digested(lib: Libraries, algorithm: seq<byte>, image: Image) {
    lib.hash(algorithm, image.payload) == Digest(image.digest) && image.digest != []
  }

  function Declared(image: Image): seq<byte> {
    if image.compression.Some? then image.compression.value else NONE
  }

  predicate Declares(image: Image) {
    && image.kind != [] && Letters(image.kind)
    && (image.compression.Some? ==> image.compression.value != [] && Letters(image.compression.value))
  }

  lemma PropertyIs(node: Record, i: nat)
    requires DistinctNames(node.properties) && i < |node.properties|
    ensures Lookup(node.properties, node.properties[i].name) == Some(node.properties[i].value)
  {
  }

  lemma LettersRead(node: Record, i: nat)
    requires DistinctNames(node.properties) && i < |node.properties| && Letters(node.properties[i].value)
    ensures FitSelection.HasText(node, node.properties[i].name, node.properties[i].value)
  {
    hide Utf8, Lookup;
    PropertyIs(node, i);
    LettersAreText(node.properties[i].value);
  }

  lemma ImageReads(image: Image, hash: nat)
    requires Declares(image)
    ensures var node := ImageRecord(image, hash);
      && Lookup(node.properties, DATA) == Some(image.payload) && !FitReports.Garbled(node)
      && FitSelection.Carries(node, image.kind, Declared(image), image.payload)
  {
    hide Lookup, Letters, Utf8, FitSelection.TextOf;
    var node := ImageRecord(image, hash);
    var last := |node.properties| - 1;
    assert node.properties[0] == Property(TYPE, image.kind) && node.properties[last] == Property(DATA, image.payload);
    PropertyIs(node, last);
    LettersRead(node, 0);
    assert TYPE[0] == 0x74 && COMPRESSION[0] == 0x63 && DATA[0] == 0x64 && NONE == [0x6e, 0x6f, 0x6e, 0x65];
    if image.compression.Some? {
      assert node.properties[1] == Property(COMPRESSION, image.compression.value);
      LettersRead(node, 1);
    } else {
      assert FitSelection.Lacks(node, COMPRESSION);
    }
  }

  lemma HashReads(lib: Libraries, algorithm: seq<byte>, image: Image, parent: nat)
    requires AlgorithmName(algorithm) && Digested(lib, algorithm, image)
    ensures HashHolds(lib, image.payload, HashRecord(parent, algorithm, image.digest))
  {
    hide Lookup;
    var node := HashRecord(parent, algorithm, image.digest);
    PropertyIs(node, 0);
    PropertyIs(node, 1);
    assert Ascii(algorithm) && 0 !in algorithm;
  }

  // Validating it ----------------------------------------------------------------------

  lemma ImageIsSound(lib: Libraries, nodes: seq<Record>, k: nat, image: Image, algorithm: seq<byte>)
    requires AllInside(nodes) && k + 1 < |nodes| && nodes[k] == ImageRecord(image, k + 1)
    requires nodes[k + 1] == HashRecord(k, algorithm, image.digest)
    requires AlgorithmName(algorithm) && Digested(lib, algorithm, image) && Declares(image)
    ensures Inside(nodes[k].children, nodes) && ImageSound(lib, nodes, nodes[k]) && !FitReports.Garbled(nodes[k])
  {
    hide Lookup, HashHolds, Digested, AlgorithmName, FitReports.Garbled, Declares;
    ImageReads(image, k + 1);
    HashReads(lib, algorithm, image, k);
  }

  ghost predicate AllGood(lib: Libraries, algorithm: seq<byte>, images: seq<Image>) {
    forall i :: 0 <= i < |images| ==> Digested(lib, algorithm, images[i]) && Declares(images[i])
  }

  lemma FitTreeSound(lib: Libraries, nodes: seq<Record>, images: seq<Image>, name: seq<byte>, conf: seq<Property>,
                     algorithm: seq<byte>)
    requires nodes == FitNodes(images, name, conf, algorithm) && Linked(nodes) && AllInside(nodes)
    requires AlgorithmName(algorithm) && AllGood(lib, algorithm, images)
    ensures |nodes| == 4 + 2 * |images| && Find(nodes, IMAGES_PATH) == Some(1)
    ensures Find(nodes, CONFIGURATIONS_PATH) == Some(2 + 2 * |images|)
    ensures TreeIssues(lib, nodes, []).Ok? && TreeSound(lib, nodes)
  {
    hide AlgorithmName, Digested, StringOf, Find, Linked, CheckImages, ImageSound, FitReports.Garbled, Declares,
         FitNodes, ImageRecord, HashRecord;
    FitNodesAt(nodes, images, name, conf, algorithm);
    ImagesFound(nodes, 2 + 2 * |images|);
    var all := nodes[1].children;
    assert Inside(all, nodes);
    forall i | 0 <= i < |all|
      ensures Inside(nodes[all[i]].children, nodes) && ImageSound(lib, nodes, nodes[all[i]])
      ensures !FitReports.Garbled(nodes[all[i]])
    {
      ImageIsSound(lib, nodes, all[i], images[i], algorithm);
    }
    FitReports.ImagesGarbledIff(lib, nodes, all, []);
    assert FitSelection.Lacks(nodes[0], DESCRIPTION);
    FitSelection.StringOfIff(nodes[0], DESCRIPTION, []);
  }

  lemma FitValidates(lib: Libraries, images: seq<Image>, name: seq<byte>, conf: seq<Property>, algorithm: seq<byte>)
    requires NamesAreLetters(images, name, conf) && DistinctNames(conf) && AlgorithmName(algorithm)
    requires AllGood(lib, algorithm, images) && |FitArtifact(images, name, conf, algorithm)| < U32
    ensures var artifact := FitArtifact(images, name, conf, algorithm);
      && Validated(lib, artifact).Ok? && Fdt.Parsed(artifact).Ok? && Acceptable(lib, artifact)
      && var nodes := Fdt.Parsed(artifact).value.nodes;
      && nodes == FitNodes(images, name, conf, algorithm) && nodes != [] && Linked(nodes) && AllInside(nodes)
      && |nodes| == 4 + 2 * |images| && Find(nodes, IMAGES_PATH) == Some(1)
      && Find(nodes, CONFIGURATIONS_PATH) == Some(2 + 2 * |images|)
  {
    hide FitArtifact, FitNodes, Fdt.Parsed, Linked, AllInside, Find, TreeIssues, TreeSound, AlgorithmName, AllGood,
         NamesAreLetters, DistinctNames;
    var artifact := FitArtifact(images, name, conf, algorithm);
    FitParses(images, name, conf, algorithm);
    ParsedIsLinked(artifact);
    FitTreeSound(lib, FitNodes(images, name, conf, algorithm), images, name, conf, algorithm);
  }

  // Packing what extraction gives --------------------------------------------------------

  /** The digest that a library gives; nothing if it has no such algorithm. */
  function DigestOf(lib: Libraries, algorithm: seq<byte>, payload: seq<byte>): seq<byte> {
    var hashing := lib.hash(algorithm, payload);
    if hashing.Digest? then hashing.bytes else []
  }

  function RamdiskImages(lib: Libraries, algorithm: seq<byte>, ramdisk: Option<Ramdisk>): seq<Image> {
    match ramdisk
    case None => []
    case Some(r) =>
      [Image(RAMDISK, RAMDISK, Some(if r.gzip then GZIP else NONE), r.bytes, DigestOf(lib, algorithm, r.bytes))]
  }

  /** The images of a kernel, a device tree and perhaps a ramdisk. */
  function OutputImages(lib: Libraries, algorithm: seq<byte>, out: Outputs): seq<Image> {
    [Image(KERNEL, KERNEL, None, out.kernel, DigestOf(lib, algorithm, out.kernel)),
     Image(FDT, FLAT_DT, None, out.deviceTree, DigestOf(lib, algorithm, out.deviceTree))]
    + RamdiskImages(lib, algorithm, out.ramdisk)
  }

  function RamdiskNames(ramdisk: Option<Ramdisk>): seq<Property> {
    if ramdisk.None? then [] else [Property(RAMDISK, RAMDISK)]
  }

  /** The configuration that names them. */
  function OutputNames(out: Outputs): seq<Property> {
    [Property(KERNEL, KERNEL), Property(FDT, FDT)] + RamdiskNames(out.ramdisk)
  }

  /** A container for these outputs, with their digests. */
  function Packed(lib: Libraries, algorithm: seq<byte>, out: Outputs): seq<byte> {
    FitArtifact(OutputImages(lib, algorithm, out), out.configuration, OutputNames(out), algorithm)
  }

  /** The library has a digest for each of them. */
  ghost predicate HasDigests(lib: Libraries, algorithm: seq<byte>, out: Outputs) {
    && DigestOf(lib, algorithm, out.kernel) != [] && DigestOf(lib, algorithm, out.deviceTree) != []
    && (out.ramdisk.Some? ==> DigestOf(lib, algorithm, out.ramdisk.value.bytes) != [])
  }

  lemma KnownNames()
    ensures |KERNEL| == 6 && |FDT| == 3 && |RAMDISK| == 7 && |FPGA| == 4 && |FLAT_DT| == 7 && |DEFAULT| == 7
    ensures DEFAULT[0] == 0x64 && RAMDISK[0] == 0x72 && |GZIP| == 4 && |NONE| == 4
    ensures Letters(KERNEL) && Letters(FDT) && Letters(RAMDISK) && Letters(FLAT_DT) && Letters(GZIP) && Letters(NONE)
    ensures FitSelection.Plain(KERNEL) && FitSelection.Plain(FDT) && FitSelection.Plain(RAMDISK)
  {
  }

  lemma OutputsAreGood(lib: Libraries, algorithm: seq<byte>, out: Outputs)
    requires HasDigests(lib, algorithm, out) && Letters(out.configuration)
    ensures NamesAreLetters(OutputImages(lib, algorithm, out), out.configuration, OutputNames(out))
    ensures AllGood(lib, algorithm, OutputImages(lib, algorithm, out)) && DistinctNames(OutputNames(out))
  {
    KnownNames();
    hide Letters;
  }

  /** A configuration's property names image `i` of these. */
  lemma NamedImage(nodes: seq<Record>, images: seq<Image>, conf: Record, j: nat, i: nat)
    requires Linked(nodes) && 1 < |nodes| && nodes[1].children == Places(2, |images|)
    requires i < |images| && 2 + 2 * |images| <= |nodes|
    requires forall m :: 0 <= m < |images| ==> nodes[2 + 2 * m].name == images[m].name
    requires forall m :: 0 <= m < i ==> images[m].name != images[i].name
    requires DistinctNames(conf.properties) && j < |conf.properties| && conf.properties[j].value == images[i].name
    requires Letters(images[i].name) && images[i].name != [] && FitSelection.Plain(images[i].name)
    ensures FitSelection.NamesImage(nodes, 1, conf, conf.properties[j].name, 2 + 2 * i)
  {
    hide Linked, FitSelection.HasText, FitSelection.Plain;
    LettersRead(conf, j);
    assert nodes[1].children[i] == 2 + 2 * i;
    forall m | 0 <= m < i ensures nodes[nodes[1].children[m]].name != images[i].name {
      assert nodes[1].children[m] == 2 + 2 * m && images[m].name != images[i].name;
    }
    assert FitSelection.FirstOf(nodes, 1, images[i].name, 2 + 2 * i);
  }

  lemma OutputAt(lib: Libraries, algorithm: seq<byte>, out: Outputs, i: nat)
    requires i < |OutputNames(out)|
    ensures |OutputNames(out)| == |OutputImages(lib, algorithm, out)|
    ensures var image := OutputImages(lib, algorithm, out)[i];
      && OutputNames(out)[i].value == image.name && image.name != [] && Letters(image.name)
      && FitSelection.Plain(image.name) && Declares(image)
      && forall m :: 0 <= m < i ==> OutputImages(lib, algorithm, out)[m].name != image.name
  {
    KnownNames();
    hide Letters, FitSelection.Plain;
  }

  lemma OutputsTaken(lib: Libraries, nodes: seq<Record>, out: Outputs, algorithm: seq<byte>, i: nat)
    requires Linked(nodes)
    requires nodes == FitNodes(OutputImages(lib, algorithm, out), out.configuration, OutputNames(out), algorithm)
    requires HasDigests(lib, algorithm, out) && Letters(out.configuration) && i < |OutputNames(out)|
    ensures |OutputNames(out)| == |OutputImages(lib, algorithm, out)| && |nodes| == 4 + 2 * |OutputNames(out)|
    ensures var image := OutputImages(lib, algorithm, out)[i];
      && nodes[|nodes| - 1] == Record(out.configuration, Some(|nodes| - 2), OutputNames(out), [])
      && FitSelection.NamesImage(nodes, 1, nodes[|nodes| - 1], OutputNames(out)[i].name, 2 + 2 * i)
      && nodes[2 + 2 * i] == ImageRecord(image, 3 + 2 * i)
      && FitSelection.Carries(nodes[2 + 2 * i], image.kind, Declared(image), image.payload)
  {
    hide Linked, FitSelection.NamesImage, FitSelection.Carries, FitSelection.Plain, Letters, Declares, DistinctNames,
         OutputImages, OutputNames, FitNodes, HasDigests, AllGood, NamesAreLetters, HashRecord;
    var images := OutputImages(lib, algorithm, out);
    OutputAt(lib, algorithm, out, i);
    OutputsAreGood(lib, algorithm, out);
    FitNodesAt(nodes, images, out.configuration, OutputNames(out), algorithm);
    assert |nodes| == 4 + 2 * |images|;
    NamedImage(nodes, images, nodes[|nodes| - 1], i, i);
    hide ImageRecord;
    ImageReads(images[i], 3 + 2 * i);
  }

  /** The device tree parses, and a ramdisk labelled as gzip starts with the gzip magic. */
  predicate Bootable(out: Outputs) {
    && Fdt.Parsed(out.deviceTree).Ok?
    && (out.ramdisk.Some? && out.ramdisk.value.gzip ==> [0x1f, 0x8b] <= out.ramdisk.value.bytes)
  }

  lemma Taken(lib: Libraries, nodes: seq<Record>, out: Outputs, algorithm: seq<byte>, i: nat)
    requires Linked(nodes)
    requires nodes == FitNodes(OutputImages(lib, algorithm, out), out.configuration, OutputNames(out), algorithm)
    requires HasDigests(lib, algorithm, out) && Letters(out.configuration) && i < |OutputNames(out)|
    ensures |OutputNames(out)| == |OutputImages(lib, algorithm, out)| && |nodes| == 4 + 2 * |OutputNames(out)|
    ensures var image := OutputImages(lib, algorithm, out)[i];
      FitSelection.Takes(nodes, 1, nodes[|nodes| - 1], OutputNames(out)[i].name, image.kind, Declared(image),
                         image.payload)
  {
    hide Linked, FitSelection.NamesImage, FitSelection.Carries, FitNodes, OutputNames, OutputImages, HasDigests,
         Letters;
    OutputsTaken(lib, nodes, out, algorithm, i);
  }

  lemma OutputsYielded(lib: Libraries, nodes: seq<Record>, out: Outputs, algorithm: seq<byte>)
    requires Linked(nodes) && HasDigests(lib, algorithm, out) && Letters(out.configuration)
    requires nodes == FitNodes(OutputImages(lib, algorithm, out), out.configuration, OutputNames(out), algorithm)
    ensures |nodes| == 4 + 2 * |OutputNames(out)|
    ensures nodes[|nodes| - 1] == Record(out.configuration, Some(|nodes| - 2), OutputNames(out), [])
    ensures FitSelection.Yields(nodes, 1, nodes[|nodes| - 1], out) <==> Bootable(out)
  {
    hide Linked, FitNodes, FitSelection.Takes, FitSelection.NamesImage, FitSelection.Carries, FitSelection.Yields,
         Bootable, HasDigests, Letters, DigestOf, ImageRecord, Declared;
    OutputsTaken(lib, nodes, out, algorithm, 0);
    Taken(lib, nodes, out, algorithm, 0);
    Taken(lib, nodes, out, algorithm, 1);
    assert Declared(OutputImages(lib, algorithm, out)[0]) == Declared(OutputImages(lib, algorithm, out)[1]) == NONE by {
      DeclaredIs(OutputImages(lib, algorithm, out)[0]);
      DeclaredIs(OutputImages(lib, algorithm, out)[1]);
    }
    if out.ramdisk.Some? {
      Taken(lib, nodes, out, algorithm, 2);
      DeclaredIs(OutputImages(lib, algorithm, out)[2]);
    }
    hide OutputImages;
    TakenIsYielded(nodes, nodes[|nodes| - 1], out);
  }

  lemma DeclaredIs(image: Image)
    ensures Declared(image) == if image.compression.Some? then image.compression.value else NONE
  {
  }

  lemma TakenIsYielded(nodes: seq<Record>, conf: Record, out: Outputs)
    requires Linked(nodes) && 1 < |nodes| && conf.properties == OutputNames(out)
    requires FitSelection.Takes(nodes, 1, conf, KERNEL, KERNEL, NONE, out.kernel)
    requires FitSelection.Takes(nodes, 1, conf, FDT, FLAT_DT, NONE, out.deviceTree)
    requires out.ramdisk.Some? ==>
               FitSelection.Takes(nodes, 1, conf, RAMDISK, RAMDISK, if out.ramdisk.value.gzip then GZIP else NONE,
                                  out.ramdisk.value.bytes)
    ensures FitSelection.Yields(nodes, 1, conf, out) <==> Bootable(out)
  {
    hide Linked, FitSelection.Takes, FitSelection.NamesImage, Fdt.Parsed;
    KnownNames();
    hide Letters, FitSelection.Plain;
    assert NONE == [0x6e, 0x6f, 0x6e, 0x65] && GZIP == [0x67, 0x7a, 0x69, 0x70];
    assert FitSelection.Lacks(conf, FPGA);
    assert out.ramdisk.None? ==> FitSelection.Lacks(conf, RAMDISK);
  }

  lemma OnlyConfiguration(nodes: seq<Record>, c: nat, name: seq<byte>, k: nat)
    requires Linked(nodes) && c + 1 < |nodes| && nodes[c].children == [c + 1] && nodes[c + 1].name == name
    ensures FitSelection.FirstOf(nodes, c, name, k) <==> k == c + 1
  {
    hide Linked;
    assert nodes[c].children[0] == c + 1;
  }

  /** Any outputs, packed with the digests of an algorithm that the library has, are
      extracted as they are, exactly when they can be booted. */
  lemma PackedImagesExtracted(lib: Libraries, algorithm: seq<byte>, out: Outputs, asked: seq<byte>)
    requires AlgorithmName(algorithm) && HasDigests(lib, algorithm, out)
    requires Letters(out.configuration) && FitSelection.Plain(out.configuration)
    requires (asked == [] || asked == out.configuration) && |Packed(lib, algorithm, out)| < U32
    ensures Extracted(lib, Packed(lib, algorithm, out), asked) == Ok(out) <==> Bootable(out)
  {
    hide FitArtifact, FitNodes, Fdt.Parsed, Linked, AllInside, Find, AlgorithmName, AllGood, NamesAreLetters, Letters,
         DistinctNames, OutputImages, OutputNames, HasDigests, FitSelection.Yields, FitSelection.FirstOf,
         FitSelection.Plain, Extracted, Bootable, Validated, Acceptable;
    var (images, names) := (OutputImages(lib, algorithm, out), OutputNames(out));
    var (name, artifact) := (out.configuration, Packed(lib, algorithm, out));
    OutputsAreGood(lib, algorithm, out);
    FitValidates(lib, images, name, names, algorithm);
    FitSelection.ExtractedIff(lib, artifact, asked, out);
    var nodes := FitNodes(images, name, names, algorithm);
    FitNodesAt(nodes, images, name, names, algorithm);
    var c := |nodes| - 2;
    OutputsYielded(lib, nodes, out, algorithm);
    forall k: nat ensures FitSelection.FirstOf(nodes, c, name, k) <==> k == c + 1 {
      OnlyConfiguration(nodes, c, name, k);
    }
    assert FitSelection.Lacks(nodes[c], DEFAULT);
    assert nodes[c].children[0] == c + 1 && DEFAULT == [0x64, 0x65, 0x66, 0x61, 0x75, 0x6c, 0x74];
  }

  // Boot arguments -----------------------------------------------------------------------

  const CHOSEN: seq<byte> := [0x63, 0x68, 0x6f, 0x73, 0x65, 0x6e]

  /** A device tree with these boot arguments. */
  function BootTree(args: seq<byte>): Tree {
    Tree([], [Node(Tree(CHOSEN, Entries([Property(BOOTARGS, args)])))])
  }

  function BootArtifact(args: seq<byte>): seq<byte> {
    Artifact(Document(0, BootTree(args), 0))
  }

  function BootNodes(args: seq<byte>): seq<Record> {
    [Record([], None, [], [1])] + [Record(CHOSEN, Some(0), [Property(BOOTARGS, args)], [])]
  }

  function BootTokens(args: seq<byte>): seq<Token> {
    [Begin([])] + ([Begin(CHOSEN)] + PropTokens([Property(BOOTARGS, args)]) + [End]) + [End]
  }

  lemma BootTreeIs(args: seq<byte>)
    ensures TreeIs(BootTree(args), 0, None, BootNodes(args), BootTokens(args))
  {
    hide TreeIs, Entries;
    var (chosen, ps) := (BootTree(args).items[0].tree, [Property(BOOTARGS, args)]);
    Leaf(chosen, ps, 1, Some(0));
    NoNames();
    NoEntries();
    assert [] + [Node(chosen)] == [Node(chosen)];
    var flat := [Begin(CHOSEN)] + PropTokens(ps) + [End];
    OneChild(BootTree(args), [], 0, None, chosen, [Record(CHOSEN, Some(0), ps, [])], flat);
    assert PropTokens([]) + flat == flat;
  }

  lemma NoEntries()
    ensures Entries([]) == []
  {
  }

  lemma BootTreeParses(args: seq<byte>)
    requires |BootArtifact(args)| < U32
    ensures Fdt.Parsed(BootArtifact(args)).Ok? && Fdt.Parsed(BootArtifact(args)).value.nodes == BootNodes(args)
  {
    hide Artifact, TextNames, Fdt.Parsed, FdtTree.Layout, Flatten, LetterNames, BootTree, BootTokens;
    var ts := Document(0, BootTree(args), 0);
    BootTreeIs(args);
    assert ts == BootTokens(args);
    BootTokensLettered(args);
    LettersAreNames(ts);
    ArtifactParses(0, BootTree(args), 0);
  }

  lemma BootTokensLettered(args: seq<byte>)
    ensures LetterNames(BootTokens(args))
  {
    assert Letters([]) && Letters(CHOSEN) && Letters(BOOTARGS);
    hide Letters;
  }

  lemma BootTreeChosen(nodes: seq<Record>, args: seq<byte>)
    requires nodes == BootNodes(args) && Linked(nodes)
    ensures Find(nodes, CHOSEN_PATH) == Some(1)
  {
    hide Linked;
    assert nodes[0].children[0] == 1;
    FitSelection.ChildIff(nodes, 0, CHOSEN, 1);
    assert |CHOSEN| == 6 && SLASH !in CHOSEN && [SLASH] + CHOSEN == CHOSEN_PATH;
    FindsChild(nodes, CHOSEN, 1);
  }

  /** The boot arguments of a device tree are its text up to the first NUL, nothing if
      that is empty, and an error exactly when they are not UTF-8. */
  lemma BootArgumentsRead(args: seq<byte>, t: seq<byte>)
    requires |BootArtifact(args)| < U32
    ensures Fdt.Parsed(BootArtifact(args)).Ok? && var chosen := ChosenBootargs(BootArtifact(args));
      && (chosen == Err(Fit.NotText) <==> !Utf8(args))
      && (chosen == Ok(Some(t)) <==> Utf8(args) && FitSelection.TextOf(args, t) && t != [])
      && (chosen == Ok(None) <==> Utf8(args) && FitSelection.TextOf(args, []))
  {
    hide BootArtifact, Fdt.Parsed, Linked, Find, Utf8, FitSelection.TextOf, BootNodes;
    BootTreeParses(args);
    ParsedIsLinked(BootArtifact(args));
    var nodes := BootNodes(args);
    BootTreeChosen(nodes, args);
    FitSelection.BootargsIff(BootArtifact(args), t);
    BootargsFailIff(BootArtifact(args));
    BootProperty(nodes[1], args);
  }

  lemma BootProperty(node: Record, args: seq<byte>)
    requires node == BootNodes(args)[1]
    ensures Lookup(node.properties, BOOTARGS) == Some(args) && !FitSelection.Lacks(node, BOOTARGS)
  {
    assert node.properties[0] == Property(BOOTARGS, args);
  }

  /** Whatever the hash library, a container with a device tree whose boot arguments are
      not text is extracted and stored, and then reported as failed. */
  lemma ErrorAfterStoring(lib: Libraries, algorithm: seq<byte>, out: Outputs, asked: seq<byte>, args: seq<byte>)
    requires AlgorithmName(algorithm) && HasDigests(lib, algorithm, out)
    requires Letters(out.configuration) && FitSelection.Plain(out.configuration)
    requires (asked == [] || asked == out.configuration) && |Packed(lib, algorithm, out)| < U32
    requires out.deviceTree == BootArtifact(args) && |BootArtifact(args)| < U32 && !Utf8(args)
    requires out.ramdisk.Some? && out.ramdisk.value.gzip ==> [0x1f, 0x8b] <= out.ramdisk.value.bytes
    ensures Extracted(lib, Packed(lib, algorithm, out), asked) == Ok(out)
    ensures Fdt.Parsed(out.deviceTree).Ok? && ChosenBootargs(out.deviceTree) == Err(Fit.NotText)
  {
    hide BootArtifact, Fdt.Parsed, Extracted, Packed, AlgorithmName, HasDigests, Utf8, Letters, FitSelection.Plain,
         ChosenBootargs;
    BootArgumentsRead(args, []);
    PackedImagesExtracted(lib, algorithm, out, asked);
  }

  // Containers that fit ------------------------------------------------------------------

  const MOST: nat := 0x100_0000

  ghost predicate AllSmall(ts: seq<Token>) {
    forall i :: 0 <= i < |ts| ==> Small(ts[i], MOST)
  }

  lemma SmallJoined(a: seq<Token>, b: seq<Token>)
    requires AllSmall(a) && AllSmall(b)
    ensures AllSmall(a + b)
  {
  }

  predicate SmallBytes(s: seq<byte>) {
    |s| + 17 <= MOST
  }

  predicate SmallImage(image: Image) {
    && SmallBytes(image.name) && SmallBytes(image.kind) && SmallBytes(image.payload) && SmallBytes(image.digest)
    && (image.compression.Some? ==> SmallBytes(image.compression.value))
  }

  lemma ImageTokensSmall(image: Image, algorithm: seq<byte>)
    requires SmallImage(image) && SmallBytes(algorithm)
    ensures |ImageTokens(image, algorithm)| <= 9 && AllSmall(ImageTokens(image, algorithm))
  {
    assert |HASH| == 4 && |ALGO| == 4 && |VALUE| == 5 && |TYPE| == 4 && |DATA| == 4 && |COMPRESSION| == 11;
    var (a, b) := (PropTokens(ImageProperties(image)), HashTokens(algorithm, image.digest));
    assert AllSmall(a) && AllSmall(b) && AllSmall([Begin(image.name)]) && AllSmall([End]);
    hide AllSmall;
    SmallJoined(a, b);
    SmallJoined([Begin(image.name)], a + b);
    SmallJoined([Begin(image.name)] + (a + b), [End]);
  }

  lemma {:induction false} AllImagesSmall(images: seq<Image>, algorithm: seq<byte>)
    requires SmallBytes(algorithm) && forall i :: 0 <= i < |images| ==> SmallImage(images[i])
    ensures AllSmall(AllImageTokens(images, algorithm)) && |AllImageTokens(images, algorithm)| <= 9 * |images|
    decreases |images|
  {
    hide SmallImage, ImageTokens, Small;
    if images != [] {
      ImageTokensSmall(images[0], algorithm);
      AllImagesSmall(images[1..], algorithm);
      SmallJoined(ImageTokens(images[0], algorithm), AllImageTokens(images[1..], algorithm));
    }
  }

  lemma FitTokensSmall(images: seq<Image>, name: seq<byte>, conf: seq<Property>, algorithm: seq<byte>)
    requires SmallBytes(algorithm) && SmallBytes(name) && AllSmall(PropTokens(conf))
    requires forall i :: 0 <= i < |images| ==> SmallImage(images[i])
    ensures AllSmall(FitTokens(images, name, conf, algorithm))
    ensures |FitTokens(images, name, conf, algorithm)| <= 9 * |images| + |conf| + 8
  {
    assert |IMAGES| == 6 && |CONFIGURATIONS| == 14;
    assert AllSmall([Begin([])]) && AllSmall([End]) && AllSmall([Begin(name)]);
    assert AllSmall([Begin(IMAGES)]) && AllSmall([Begin(CONFIGURATIONS)]);
    hide AllSmall, AllImageTokens, PropTokens, SmallImage, SmallBytes;
    AllImagesSmall(images, algorithm);
    var (a, b) := (AllImageTokens(images, algorithm), PropTokens(conf));
    SmallNode([Begin(IMAGES)], a);
    SmallNode([Begin(name)], b);
    SmallNode([Begin(CONFIGURATIONS)], [Begin(name)] + b + [End]);
    var (l, r) := ([Begin(IMAGES)] + a + [End], [Begin(CONFIGURATIONS)] + ([Begin(name)] + b + [End]) + [End]);
    SmallJoined(l, r);
    SmallNode([Begin([])], l + r);
  }

  lemma SmallNode(start: seq<Token>, inside: seq<Token>)
    requires AllSmall(start) && AllSmall(inside)
    ensures AllSmall(start + inside + [End])
  {
    SmallJoined(start, inside);
    SmallJoined(start + inside, [End]);
  }

  /** Outputs, digests and names below 16 MiB fit. */
  lemma SmallOutputsFit(lib: Libraries, algorithm: seq<byte>, out: Outputs)
    requires SmallBytes(algorithm) && SmallBytes(out.configuration)
    requires SmallBytes(out.kernel) && SmallBytes(DigestOf(lib, algorithm, out.kernel))
    requires SmallBytes(out.deviceTree) && SmallBytes(DigestOf(lib, algorithm, out.deviceTree))
    requires out.ramdisk.Some? ==>
               SmallBytes(out.ramdisk.value.bytes) && SmallBytes(DigestOf(lib, algorithm, out.ramdisk.value.bytes))
    ensures |Packed(lib, algorithm, out)| < U32
  {
    hide Artifact, Small, FitTokens, FitTree, TreeIs, Letters, FitSelection.Plain, DigestOf, ImageTokens;
    KnownNames();
    var (images, conf) := (OutputImages(lib, algorithm, out), OutputNames(out));
    assert |images| <= 3 && |conf| <= 3 && DistinctNames(conf);
    NamesSmall(conf);
    FitTokensSmall(images, out.configuration, conf, algorithm);
    hide OutputImages, OutputNames, AllSmall;
    PackedIsSmall(images, out.configuration, conf, algorithm);
  }

  lemma NamesSmall(conf: seq<Property>)
    requires forall i :: 0 <= i < |conf| ==> |conf[i].name| <= 7 && |conf[i].value| <= 7
    ensures AllSmall(PropTokens(conf))
  {
  }

  lemma PackedIsSmall(images: seq<Image>, name: seq<byte>, conf: seq<Property>, algorithm: seq<byte>)
    requires AllSmall(FitTokens(images, name, conf, algorithm)) && DistinctNames(conf)
    requires |FitTokens(images, name, conf, algorithm)| <= 40
    ensures |FitArtifact(images, name, conf, algorithm)| < U32
  {
    hide Artifact, Small, FitTokens, FitTree, DistinctNames;
    FitIs(images, name, conf, algorithm);
    var ts := Document(0, FitTree(images, name, conf, algorithm), 0);
    assert ts == FitTokens(images, name, conf, algorithm);
    ArtifactFits(ts, MOST);
  }

  lemma BootArtifactFits(args: seq<byte>)
    requires SmallBytes(args)
    ensures |BootArtifact(args)| <= 60 + 10 * (|args| + 32)
  {
    hide Artifact, BootTree, BootNodes;
    BootTreeIs(args);
    var ts := Document(0, BootTree(args), 0);
    assert ts == BootTokens(args) && |CHOSEN| == 6 && |BOOTARGS| == 8;
    ArtifactFits(ts, |args| + 32);
  }

  /** Every library with an algorithm of ordinary digests has such a container. */
  lemma ErrorAfterStoringExists(lib: Libraries, algorithm: seq<byte>) returns (out: Outputs)
    requires AlgorithmName(algorithm) && |algorithm| <= 256
    requires forall payload :: lib.hash(algorithm, payload).Digest? && 0 < |lib.hash(algorithm, payload).bytes| <= 256
    ensures Extracted(lib, Packed(lib, algorithm, out), []) == Ok(out)
    ensures Fdt.Parsed(out.deviceTree).Ok? && ChosenBootargs(out.deviceTree) == Err(Fit.NotText)
  {
    hide BootArtifact, Fdt.Parsed, Extracted, Packed, AlgorithmName, ChosenBootargs;
    assert !Utf8([0xff]);
    hide Utf8;
    BootArtifactFits([0xff]);
    out := Outputs([], [], BootArtifact([0xff]), None);
    SmallOutputsFit(lib, algorithm, out);
    ErrorAfterStoring(lib, algorithm, out, [], [0xff]);
  }
}
