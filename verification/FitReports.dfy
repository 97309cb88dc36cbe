/** What makes a FIT report compatible, told by the nodes, properties and trailing bytes
    of the artifact. */
module FitReports {
  import opened Bytes
  import DfuSuffix
  import Fdt
  import opened FdtLinks
  import opened FdtPaths
  import opened FdtTree
  import opened Fit
  import opened FitExtraction
  import opened Text
  import opened Wrappers

  // Hash nodes -----------------------------------------------------------------------

  /** `hash`, or `hash@` and anything. */
  ghost predicate HashNamed(name: seq<byte>) {
    name == [0x68, 0x61, 0x73, 0x68] || exists unit :: name == [0x68, 0x61, 0x73, 0x68, 0x40] + unit
  }

  lemma HashNameIff(name: seq<byte>)
    ensures IsHashName(name) <==> HashNamed(name)
    ensures IsHashName(name) <==> Split(name, 0x40)[0] == [0x68, 0x61, 0x73, 0x68]
  {
    if IsHashName(name) && name != HASH {
      assert name == [0x68, 0x61, 0x73, 0x68, 0x40] + name[5..];
      assert name == HASH + [0x40] + name[5..];
      SplitAtSeparator(HASH, name[5..], 0x40);
    }
    if name == HASH {
      SplitWhole(HASH, 0x40);
    }
    if Split(name, 0x40)[0] == HASH {
      FirstPartStarts(name, 0x40);
    }
  }

  lemma {:induction false} FirstPartStarts(s: seq<byte>, separator: byte)
    ensures var first := Split(s, separator)[0];
      first <= s && (|s| == |first| || s[|first|] == separator)
    decreases |s|
  {
    if s != [] && s[0] != separator {
      FirstPartStarts(s[1..], separator);
    }
  }

  /** The node names an algorithm whose digest of the payload is the value it stores. */
  ghost predicate Holds(lib: Libraries, payload: seq<byte>, node: Record) {
    exists algorithm, digest ::
      && algorithm != [] && (forall i :: 0 <= i < |algorithm| ==> 0 < algorithm[i] < 0x80)
      && Lookup(node.properties, [0x61, 0x6c, 0x67, 0x6f]) == Some(algorithm + [0])
      && lib.hash(algorithm, payload) == Digest(digest) && digest != []
      && Lookup(node.properties, [0x76, 0x61, 0x6c, 0x75, 0x65]) == Some(digest)
  }

  lemma HoldsIff(lib: Libraries, payload: seq<byte>, node: Record)
    ensures HashProblem(lib, payload, node).None? <==> Holds(lib, payload, node)
  {
    NoProblemIff(lib, payload, node);
    assert ALGO == [0x61, 0x6c, 0x67, 0x6f] && VALUE == [0x76, 0x61, 0x6c, 0x75, 0x65];
    hide HashProblem;
    if HashHolds(lib, payload, node) {
      var algorithm, digest :|
        && algorithm != [] && 0 !in algorithm && Ascii(algorithm)
        && Lookup(node.properties, ALGO) == Some(algorithm + [0])
        && lib.hash(algorithm, payload) == Digest(digest) && digest != []
        && Lookup(node.properties, VALUE) == Some(digest);
      assert forall i :: 0 <= i < |algorithm| ==> 0 < algorithm[i] < 0x80;
    }
  }

  /** Image node `k` has inline data and a hash node that does not hold. */
  ghost predicate WrongHash(lib: Libraries, nodes: seq<Record>, images: nat, k: nat, h: nat)
    requires Linked(nodes) && images < |nodes|
  {
    && k in nodes[images].children && k < |nodes| && h in nodes[k].children && h < |nodes|
    && HashNamed(nodes[h].name) && Lookup(nodes[k].properties, [0x64, 0x61, 0x74, 0x61]).Some?
    && !Holds(lib, Lookup(nodes[k].properties, [0x64, 0x61, 0x74, 0x61]).value, nodes[h])
  }

  /** A hash that is wrong, missing, malformed or of an unknown algorithm, in a node named
      `hash` with or without a unit, makes the report incompatible, and nothing is
      extracted. */
  lemma WrongHashRefused(lib: Libraries, artifact: seq<byte>, asked: seq<byte>, images: nat, k: nat, h: nat)
    requires Fdt.Parsed(artifact).Ok? && var nodes := Fdt.Parsed(artifact).value.nodes;
      && nodes != [] && Linked(nodes) && Find(nodes, IMAGES_PATH) == Some(images) && WrongHash(lib, nodes, images, k, h)
    ensures Validated(lib, artifact).Ok? ==> !Compatible(Validated(lib, artifact).value)
    ensures Extracted(lib, artifact, asked).Err?
  {
    hide Validated, Fdt.Parsed, Find, Linked, Holds, IsHashName, Chosen;
    ParsedIsLinked(artifact);
    var nodes := Fdt.Parsed(artifact).value.nodes;
    if Validated(lib, artifact).Ok? && Compatible(Validated(lib, artifact).value) {
      CompatibleIff(lib, artifact);
      WrongIsUnsound(lib, nodes, images, k, h);
      assert false;
    }
  }

  lemma WrongIsUnsound(lib: Libraries, nodes: seq<Record>, images: nat, k: nat, h: nat)
    requires Linked(nodes) && AllInside(nodes) && images < |nodes| && WrongHash(lib, nodes, images, k, h)
    ensures Inside(nodes[images].children, nodes) && !ImagesSound(lib, nodes, nodes[images].children)
  {
    hide Linked, HashProblem, Holds, IsHashName, HashHolds;
    assert DATA == [0x64, 0x61, 0x74, 0x61];
    var i :| 0 <= i < |nodes[images].children| && nodes[images].children[i] == k;
    var j :| 0 <= j < |nodes[k].children| && nodes[k].children[j] == h;
    HashNameIff(nodes[h].name);
    HoldsIff(lib, Lookup(nodes[k].properties, DATA).value, nodes[h]);
    NoProblemIff(lib, Lookup(nodes[k].properties, DATA).value, nodes[h]);
    assert !HashSoundAt(lib, nodes, nodes[k], j);
    assert !ImageSound(lib, nodes, nodes[nodes[images].children[i]]);
  }

  /** Children of any other name have no influence on the report. */
  lemma {:induction false} OthersIgnored(lib: Libraries, nodes: seq<Record>, other: seq<Record>, image: seq<byte>,
                                         payload: seq<byte>, children: seq<nat>, issues: seq<Issue>)
    requires Inside(children, nodes) && Inside(children, other)
    requires forall i :: 0 <= i < |children| ==>
               || nodes[children[i]] == other[children[i]]
               || (!HashNamed(nodes[children[i]].name) && !HashNamed(other[children[i]].name))
    ensures CheckHashes(lib, nodes, image, payload, children, issues)
         == CheckHashes(lib, other, image, payload, children, issues)
    decreases |children|
  {
    if children != [] {
      HashNameIff(nodes[children[0]].name);
      HashNameIff(other[children[0]].name);
      hide IsHashName, HashProblem, HashNamed;
      var node := nodes[children[0]];
      var problem := if IsHashName(node.name) then HashProblem(lib, payload, node) else None;
      var more := if problem.Some? then issues + [Issue(true, problem.value, image)] else issues;
      OthersIgnored(lib, nodes, other, image, payload, children[1..], more);
    }
  }

  // Trailers ---------------------------------------------------------------------------

  /** Lower-case letters for upper-case ones, and everything else as it is. */
  lemma LowerMeaning(s: seq<byte>, i: nat)
    requires i < |s|
    ensures Lower(s)[i] == if 0x41 <= s[i] <= 0x5a then s[i] + 0x20 else s[i]
  {
  }

  /** The legacy line: 32 bytes and a line feed. */
  predicate Md5Line(trailer: seq<byte>) {
    |trailer| == 33 && trailer[32] == 0x0a
  }

  /** Sixteen bytes with the DFU signature `UFD`. */
  predicate DfuLike(trailer: seq<byte>) {
    |trailer| == 16 && trailer[8] == 0x55 && trailer[9] == 0x46 && trailer[10] == 0x44
  }

  /** What follows the tree speaks against it exactly when it is a legacy line that is not
      the tree's MD5 in either case, or looks like a DFU suffix and is not one. */
  lemma TrailerAgainstIff(lib: Libraries, artifact: seq<byte>, tree: seq<byte>, trailer: seq<byte>)
    ensures Compatible(TrailerIssues(lib, artifact, tree, trailer)) <==>
            && (Md5Line(trailer) ==> Lower(trailer[..32]) == lib.md5Hex(tree))
            && (DfuLike(trailer) ==> DfuSuffix.Parse(artifact, true).Ok?)
    ensures TrailerIssues(lib, artifact, tree, trailer) == [] <==>
            trailer == [] || (DfuLike(trailer) && DfuSuffix.Parse(artifact, true).Ok?)
  {
    hide DfuSuffix.Parse;
    var issues := TrailerIssues(lib, artifact, tree, trailer);
    if |trailer| == 16 {
      assert trailer[8..11] == [trailer[8], trailer[9], trailer[10]];
    }
    assert issues != [] && issues[0].error ==> !Compatible(issues);
  }

  // Text that cannot be read -----------------------------------------------------------

  /** An image with data whose type or compression is not UTF-8. */
  ghost predicate Garbled(image: Record) {
    && Lookup(image.properties, DATA).Some?
    && (GarbledText(image, [0x74, 0x79, 0x70, 0x65])
        || GarbledText(image, [0x63, 0x6f, 0x6d, 0x70, 0x72, 0x65, 0x73, 0x73, 0x69, 0x6f, 0x6e]))
  }

  ghost predicate GarbledText(node: Record, name: seq<byte>) {
    Lookup(node.properties, name).Some? && !Utf8(Lookup(node.properties, name).value)
  }

  lemma {:induction false} ImagesGarbledIff(lib: Libraries, nodes: seq<Record>, images: seq<nat>, issues: seq<Issue>)
    requires AllInside(nodes) && Inside(images, nodes)
    ensures CheckImages(lib, nodes, images, issues).Err? <==>
            exists i :: 0 <= i < |images| && Garbled(nodes[images[i]])
    decreases |images|
  {
    hide StringOf, CheckHashes, Lookup, Utf8;
    if images != [] {
      var (image, rest) := (nodes[images[0]], images[1..]);
      assert TYPE == [0x74, 0x79, 0x70, 0x65];
      assert COMPRESSION == [0x63, 0x6f, 0x6d, 0x70, 0x72, 0x65, 0x73, 0x73, 0x69, 0x6f, 0x6e];
      ReadsAsTextIff(image, TYPE);
      ReadsAsTextIff(image, COMPRESSION);
      assert forall i :: 0 < i < |images| ==> images[i] == rest[i - 1];
      match Lookup(image.properties, DATA)
      case None => ImagesGarbledIff(lib, nodes, rest, issues + [Issue(true, NoInlineData, image.name)]);
      case Some(payload) =>
        ImagesGarbledIff(lib, nodes, rest, CheckHashes(lib, nodes, image.name, payload, image.children, issues));
    }
  }

  // The issues ---------------------------------------------------------------------------

  /** What is wrong with a hash node: the first that applies. */
  ghost predicate Wrong(lib: Libraries, payload: seq<byte>, node: Record, reason: Reason) {
    WrongFields(lib, payload, Lookup(node.properties, [0x61, 0x6c, 0x67, 0x6f]),
                Lookup(node.properties, [0x76, 0x61, 0x6c, 0x75, 0x65]), reason)
  }

  ghost predicate WrongFields(lib: Libraries, payload: seq<byte>, algo: Option<seq<byte>>, value: Option<seq<byte>>,
                              reason: Reason)
  {
    if algo.None? || value.None? then reason == MissingField
    else if !Terminated(algo.value) then reason == MalformedAlgorithm
    else if BeyondAscii(algo.value) then reason == AlgorithmNotAscii
    else WrongDigest(lib.hash(algo.value[..|algo.value| - 1], payload), value.value, reason)
  }

  ghost predicate WrongDigest(hashing: Hashing, stored: seq<byte>, reason: Reason) {
    match hashing
    case Unsupported => reason == UnsupportedHash
    case Digest(digest) =>
      || (digest == [] && reason == VariableLengthHash)
      || (digest != [] && |digest| != |stored| && reason == DigestLength)
      || (digest != [] && |digest| == |stored| && digest != stored && reason == DigestMismatch)
  }

  /** What comes of an algorithm's answer. */
  function DigestProblem(hashing: Hashing, stored: seq<byte>): Option<Reason> {
    match hashing
    case Unsupported => Some(UnsupportedHash)
    case Digest(digest) =>
      if digest == [] then Some(VariableLengthHash)
      else if |stored| != |digest| then Some(DigestLength)
      else if digest != stored then Some(DigestMismatch)
      else None
  }

  lemma DigestIff(hashing: Hashing, stored: seq<byte>, reason: Reason)
    ensures DigestProblem(hashing, stored) == Some(reason) <==> WrongDigest(hashing, stored, reason)
  {
  }

  /** The checks of the algorithm's name come first. */
  lemma ProblemAfterName(lib: Libraries, payload: seq<byte>, node: Record, raw: seq<byte>, stored: seq<byte>)
    requires Lookup(node.properties, ALGO) == Some(raw) && Lookup(node.properties, VALUE) == Some(stored)
    ensures HashProblem(lib, payload, node) ==
            if !Terminated(raw) then Some(MalformedAlgorithm)
            else if BeyondAscii(raw) then Some(AlgorithmNotAscii)
            else DigestProblem(lib.hash(raw[..|raw| - 1], payload), stored)
  {
    hide Lookup, Terminated, Ascii, BeyondAscii;
    TerminatedIff(raw);
  }

  /** One or more bytes other than NUL, and a NUL. */
  ghost predicate Terminated(s: seq<byte>) {
    |s| >= 2 && s[|s| - 1] == 0 && forall i :: 0 <= i < |s| - 1 ==> s[i] != 0
  }

  ghost predicate BeyondAscii(s: seq<byte>) {
    exists i :: 0 <= i < |s| && s[i] >= 0x80
  }

  lemma FieldsIff(lib: Libraries, payload: seq<byte>, node: Record, reason: Reason)
    ensures HashProblem(lib, payload, node) == Some(reason) <==>
            WrongFields(lib, payload, Lookup(node.properties, ALGO), Lookup(node.properties, VALUE), reason)
  {
    hide Lookup, Terminated, BeyondAscii, DigestProblem, WrongDigest;
    var (algo, value) := (Lookup(node.properties, ALGO), Lookup(node.properties, VALUE));
    if algo.Some? && value.Some? {
      ProblemAfterName(lib, payload, node, algo.value, value.value);
      hide HashProblem;
      if Terminated(algo.value) {
        TerminatedIff(algo.value);
        DigestIff(lib.hash(algo.value[..|algo.value| - 1], payload), value.value, reason);
      }
    }
  }

  lemma WrongIff(lib: Libraries, payload: seq<byte>, node: Record, reason: Reason)
    ensures HashProblem(lib, payload, node) == Some(reason) <==> Wrong(lib, payload, node, reason)
  {
    hide HashProblem, WrongFields, Lookup;
    FieldsIff(lib, payload, node, reason);
    assert ALGO == [0x61, 0x6c, 0x67, 0x6f] && VALUE == [0x76, 0x61, 0x6c, 0x75, 0x65];
  }

  lemma TerminatedIff(raw: seq<byte>)
    ensures Terminated(raw) <==> |raw| >= 2 && raw[|raw| - 1] == 0 && 0 !in raw[..|raw| - 1]
    ensures Terminated(raw) ==>
              |raw| >= 2 && (Ascii(raw[..|raw| - 1]) <==> !BeyondAscii(raw))
  {
    if |raw| >= 2 {
      assert forall i :: 0 <= i < |raw| - 1 ==> raw[i] == raw[..|raw| - 1][i];
    }
  }

  ghost predicate WrongChild(lib: Libraries, nodes: seq<Record>, payload: seq<byte>, child: nat, reason: Reason) {
    child < |nodes| && HashNamed(nodes[child].name) && Wrong(lib, payload, nodes[child], reason)
  }

  /** One error for every wrong hash, in the order of the children. */
  ghost predicate HashIssues(lib: Libraries, nodes: seq<Record>, image: seq<byte>, payload: seq<byte>,
                             children: seq<nat>, issues: seq<Issue>)
    decreases |children|
  {
    if children == [] then issues == []
    else if exists reason :: WrongChild(lib, nodes, payload, children[0], reason) then
      && issues != [] && issues[0].error && issues[0].subject == image
      && WrongChild(lib, nodes, payload, children[0], issues[0].reason)
      && HashIssues(lib, nodes, image, payload, children[1..], issues[1..])
    else HashIssues(lib, nodes, image, payload, children[1..], issues)
  }

  lemma ProblemIs(lib: Libraries, nodes: seq<Record>, payload: seq<byte>, child: nat)
    requires child < |nodes|
    ensures var problem := if IsHashName(nodes[child].name) then HashProblem(lib, payload, nodes[child]) else None;
      forall reason :: WrongChild(lib, nodes, payload, child, reason) <==> problem == Some(reason)
  {
    hide HashProblem, Wrong, IsHashName, HashNamed;
    HashNameIff(nodes[child].name);
    forall reason
      ensures HashProblem(lib, payload, nodes[child]) == Some(reason) <==> Wrong(lib, payload, nodes[child], reason)
    {
      WrongIff(lib, payload, nodes[child], reason);
    }
  }

  lemma {:induction false} HashIssuesAre(lib: Libraries, nodes: seq<Record>, image: seq<byte>, payload: seq<byte>,
                                         children: seq<nat>, issues: seq<Issue>)
    returns (more: seq<Issue>)
    requires Inside(children, nodes)
    ensures CheckHashes(lib, nodes, image, payload, children, issues) == issues + more
    ensures HashIssues(lib, nodes, image, payload, children, more)
    decreases |children|
  {
    hide HashProblem, WrongChild, IsHashName;
    if children == [] {
      more := [];
    } else {
      var node := nodes[children[0]];
      var problem := if IsHashName(node.name) then HashProblem(lib, payload, node) else None;
      ProblemIs(lib, nodes, payload, children[0]);
      var first := if problem.Some? then [Issue(true, problem.value, image)] else [];
      var rest := HashIssuesAre(lib, nodes, image, payload, children[1..], issues + first);
      more := first + rest;
      assert problem.None? ==> issues + first == issues;
      assert issues + first + rest == issues + more;
      assert problem.Some? ==> more[1..] == rest && WrongChild(lib, nodes, payload, children[0], problem.value);
      assert problem.None? ==> more == rest;
    }
  }

  /** What one image adds to the report. */
  ghost predicate ImageIssues(lib: Libraries, nodes: seq<Record>, image: Record, issues: seq<Issue>) {
    match Lookup(image.properties, [0x64, 0x61, 0x74, 0x61])
    case None => issues == [Issue(true, NoInlineData, image.name)]
    case Some(payload) => HashIssues(lib, nodes, image.name, payload, image.children, issues)
  }

  function Joined(parts: seq<seq<Issue>>): seq<Issue> {
    if parts == [] then [] else parts[0] + Joined(parts[1..])
  }

  /** The report goes through the images in order. */
  lemma {:induction false} ReportIs(lib: Libraries, nodes: seq<Record>, images: seq<nat>, issues: seq<Issue>)
    returns (parts: seq<seq<Issue>>)
    requires AllInside(nodes) && Inside(images, nodes) && CheckImages(lib, nodes, images, issues).Ok?
    ensures CheckImages(lib, nodes, images, issues) == Ok(issues + Joined(parts))
    ensures |parts| == |images|
    ensures forall i :: 0 <= i < |images| ==> ImageIssues(lib, nodes, nodes[images[i]], parts[i])
    decreases |images|
  {
    hide CheckHashes, StringOf, Lookup, HashIssues;
    if images == [] {
      parts := [];
      assert issues + Joined(parts) == issues;
    } else {
      var image := nodes[images[0]];
      assert DATA == [0x64, 0x61, 0x74, 0x61];
      var first;
      if Lookup(image.properties, DATA).None? {
        first := [Issue(true, NoInlineData, image.name)];
      } else {
        first := HashIssuesAre(lib, nodes, image.name, Lookup(image.properties, DATA).value, image.children, issues);
      }
      assert ImageIssues(lib, nodes, image, first);
      hide ImageIssues;
      var rest := ReportIs(lib, nodes, images[1..], issues + first);
      parts := [first] + rest;
      assert parts[1..] == rest && issues + first + Joined(rest) == issues + (first + Joined(rest));
    }
  }

  /** What the bytes after the tree add to the report. */
  lemma TrailerReport(lib: Libraries, artifact: seq<byte>, tree: seq<byte>, trailer: seq<byte>)
    ensures var issues := TrailerIssues(lib, artifact, tree, trailer);
      && (trailer == [] ==> issues == [])
      && (Md5Line(trailer) && Lower(trailer[..32]) == lib.md5Hex(tree) ==>
            issues == [Issue(false, LegacyAuthenticity, [])])
      && (Md5Line(trailer) && Lower(trailer[..32]) != lib.md5Hex(tree) ==>
            issues == [Issue(true, Md5Trailer, []), Issue(false, LegacyAuthenticity, [])])
      && (DfuLike(trailer) ==>
            issues == if DfuSuffix.Parse(artifact, true).Ok? then [] else [Issue(true, BadDfuSuffix, [])])
      && (trailer != [] && !Md5Line(trailer) && !DfuLike(trailer) ==> issues == [Issue(false, UnknownTrailer, [])])
  {
    hide DfuSuffix.Parse, Lower;
    if |trailer| == 16 {
      assert trailer[8..11] == [trailer[8], trailer[9], trailer[10]];
    }
  }
}
