/** FIT containers: properties as text, and checking every hash that an image declares.
    Hash libraries are parameters. */
module Fit {
  import opened Bytes
  import opened FdtTree
  import opened Text
  import opened Wrappers

  // Names ----------------------------------------------------------------------

  const AT: byte := 0x40
  const DATA: seq<byte> := [0x64, 0x61, 0x74, 0x61]
  const ALGO: seq<byte> := [0x61, 0x6c, 0x67, 0x6f]
  const VALUE: seq<byte> := [0x76, 0x61, 0x6c, 0x75, 0x65]
  const HASH: seq<byte> := [0x68, 0x61, 0x73, 0x68]
  const TYPE: seq<byte> := [0x74, 0x79, 0x70, 0x65]
  const COMPRESSION: seq<byte> := [0x63, 0x6f, 0x6d, 0x70, 0x72, 0x65, 0x73, 0x73, 0x69, 0x6f, 0x6e]
  const DESCRIPTION: seq<byte> := [0x64, 0x65, 0x73, 0x63, 0x72, 0x69, 0x70, 0x74, 0x69, 0x6f, 0x6e]
  const DEFAULT: seq<byte> := [0x64, 0x65, 0x66, 0x61, 0x75, 0x6c, 0x74]
  const KERNEL: seq<byte> := [0x6b, 0x65, 0x72, 0x6e, 0x65, 0x6c]
  const FDT: seq<byte> := [0x66, 0x64, 0x74]
  const RAMDISK: seq<byte> := [0x72, 0x61, 0x6d, 0x64, 0x69, 0x73, 0x6b]
  const FPGA: seq<byte> := [0x66, 0x70, 0x67, 0x61]
  const FLAT_DT: seq<byte> := [0x66, 0x6c, 0x61, 0x74, 0x5f, 0x64, 0x74]
  const NONE: seq<byte> := [0x6e, 0x6f, 0x6e, 0x65]
  const GZIP: seq<byte> := [0x67, 0x7a, 0x69, 0x70]
  const IMAGES: seq<byte> := [0x69, 0x6d, 0x61, 0x67, 0x65, 0x73]
  const CONFIGURATIONS: seq<byte> :=
    [0x63, 0x6f, 0x6e, 0x66, 0x69, 0x67, 0x75, 0x72, 0x61, 0x74, 0x69, 0x6f, 0x6e, 0x73]

  datatype FitError =
    | NotText | FailedValidation | NoConfigurations | UnsafeConfiguration | MissingConfiguration
    | UnsafeReference | MissingReference | MissingImage | WrongType | NotInline | Compressed
    | BadDeviceTree | BadRamdiskCompression | NotGzip

  /** A library's answer for one algorithm and payload; algorithms of variable length
      have no digest of their own. */
  datatype Hashing = Unsupported | Digest(bytes: seq<byte>)

  /** The hash libraries: by name, and the hexadecimal MD5 of the legacy trailer. */
  datatype Libraries = Libraries(hash: (seq<byte>, seq<byte>) -> Hashing, md5Hex: seq<byte> -> seq<byte>)

  // Reading a node ---------------------------------------------------------------

  function Lookup(properties: seq<Property>, name: seq<byte>): (r: Option<seq<byte>>)
    ensures r.Some? <==> exists i :: 0 <= i < |properties| && properties[i].name == name
    ensures r.Some? ==> Property(name, r.value) in properties
  {
    if properties == [] then None
    else if properties[0].name == name then Some(properties[0].value)
    else
      var r := Lookup(properties[1..], name);
      assert forall i :: 0 < i < |properties| ==> properties[i] == properties[1..][i - 1];
      r
  }

  function WithoutTrailingNuls(s: seq<byte>): seq<byte> {
    if s != [] && s[|s| - 1] == 0 then WithoutTrailingNuls(s[..|s| - 1]) else s
  }

  /** `string`: the first of a property's NUL-separated texts, all of which must decode. */
  function StringOf(node: Record, name: seq<byte>): Result<Option<seq<byte>>, FitError> {
    match Lookup(node.properties, name)
    case None => Ok(None)
    case Some(value) =>
      var parts := Split(WithoutTrailingNuls(value), NUL);
      if AllText(parts) then Ok(Some(parts[0])) else Err(NotText)
  }

  // Hashes -----------------------------------------------------------------------

  datatype Reason =
    | MissingField | MalformedAlgorithm | AlgorithmNotAscii | UnsupportedHash | VariableLengthHash
    | DigestLength | DigestMismatch | NoInlineData | Structure | Layout | Md5Trailer | BadDfuSuffix
    | LegacyAuthenticity | UnknownTrailer

  datatype Issue = Issue(error: bool, reason: Reason, subject: seq<byte>)

  /** The name before any `@`. */
  predicate IsHashName(name: seq<byte>) {
    name == HASH || (|name| > 4 && name[..4] == HASH && name[4] == AT)
  }

  /** The first thing wrong with a hash node, in the order of the checks. */
  function HashProblem(lib: Libraries, payload: seq<byte>, node: Record): Option<Reason> {
    var (algo, value) := (Lookup(node.properties, ALGO), Lookup(node.properties, VALUE));
    if algo.None? || value.None? then Some(MissingField)
    else
      var raw := algo.value;
      if |raw| < 2 || raw[|raw| - 1] != 0 || 0 in raw[..|raw| - 1] then Some(MalformedAlgorithm)
      else if !Ascii(raw[..|raw| - 1]) then Some(AlgorithmNotAscii)
      else
        match lib.hash(raw[..|raw| - 1], payload)
        case Unsupported => Some(UnsupportedHash)
        case Digest(digest) =>
          if digest == [] then Some(VariableLengthHash)
          else if |value.value| != |digest| then Some(DigestLength)
          else if digest != value.value then Some(DigestMismatch)
          else None
  }

  /** A hash node that names a fixed-length algorithm whose digest of the payload is
      the stored value. */
  ghost predicate HashHolds(lib: Libraries, payload: seq<byte>, node: Record) {
    exists algorithm, digest ::
      && algorithm != [] && 0 !in algorithm && Ascii(algorithm)
      && Lookup(node.properties, ALGO) == Some(algorithm + [0])
      && lib.hash(algorithm, payload) == Digest(digest) && digest != []
      && Lookup(node.properties, VALUE) == Some(digest)
  }

  /** A hash node passes exactly when its stored digest is right. */
  lemma NoProblemIff(lib: Libraries, payload: seq<byte>, node: Record)
    ensures HashProblem(lib, payload, node).None? <==> HashHolds(lib, payload, node)
  {
    var (algo, value) := (Lookup(node.properties, ALGO), Lookup(node.properties, VALUE));
    if HashProblem(lib, payload, node).None? {
      var algorithm := algo.value[..|algo.value| - 1];
      assert algo.value == algorithm + [0];
      var digest := lib.hash(algorithm, payload).bytes;
    }
    if HashHolds(lib, payload, node) {
      var algorithm, digest :|
        && algorithm != [] && 0 !in algorithm && Ascii(algorithm)
        && algo == Some(algorithm + [0]) && lib.hash(algorithm, payload) == Digest(digest)
        && digest != [] && value == Some(digest);
      assert algo.value[..|algo.value| - 1] == algorithm;
    }
  }

  // Validation -------------------------------------------------------------------

  class FirmwareReport {
    var issues: seq<Issue>

    constructor ()
      ensures issues == []
    {
      issues := [];
    }

    method Add(issue: Issue)
      modifies this
      ensures issues == old(issues) + [issue]
    {
      issues := issues + [issue];
    }
  }

  predicate Compatible(issues: seq<Issue>) {
    forall i :: 0 <= i < |issues| ==> !issues[i].error
  }

  predicate Inside(children: seq<nat>, nodes: seq<Record>) {
    forall i :: 0 <= i < |children| ==> children[i] < |nodes|
  }

  /** The issues after the hash nodes among these children of an image. */
  function CheckHashes(lib: Libraries, nodes: seq<Record>, image: seq<byte>, payload: seq<byte>, children: seq<nat>,
                       issues: seq<Issue>): seq<Issue>
    requires Inside(children, nodes)
    decreases |children|
  {
    if children == [] then issues
    else
      var node := nodes[children[0]];
      var problem := if IsHashName(node.name) then HashProblem(lib, payload, node) else None;
      var more := if problem.Some? then issues + [Issue(true, problem.value, image)] else issues;
      CheckHashes(lib, nodes, image, payload, children[1..], more)
  }

  ghost predicate AllInside(nodes: seq<Record>) {
    forall k :: 0 <= k < |nodes| ==> Inside(nodes[k].children, nodes)
  }

  /** The issues after these images; text that does not decode ends the validation. */
  function CheckImages(lib: Libraries, nodes: seq<Record>, images: seq<nat>, issues: seq<Issue>)
    : Result<seq<Issue>, FitError>
    requires AllInside(nodes) && Inside(images, nodes)
    decreases |images|
  {
    if images == [] then Ok(issues)
    else
      var image := nodes[images[0]];
      match Lookup(image.properties, DATA)
      case None => CheckImages(lib, nodes, images[1..], issues + [Issue(true, NoInlineData, image.name)])
      case Some(payload) =>
        var _ :- StringOf(image, TYPE);
        var _ :- StringOf(image, COMPRESSION);
        CheckImages(lib, nodes, images[1..], CheckHashes(lib, nodes, image.name, payload, image.children, issues))
  }

  method CheckImageHashes(report: FirmwareReport, lib: Libraries, nodes: seq<Record>, image: Record, payload: seq<byte>)
    requires Inside(image.children, nodes)
    modifies report
    ensures report.issues == CheckHashes(lib, nodes, image.name, payload, image.children, old(report.issues))
  {
    var i := 0;
    while i < |image.children|
      invariant 0 <= i <= |image.children|
      invariant CheckHashes(lib, nodes, image.name, payload, image.children[i..], report.issues)
             == CheckHashes(lib, nodes, image.name, payload, image.children, old(report.issues))
    {
      var node := nodes[image.children[i]];
      assert image.children[i..][1..] == image.children[i + 1..];
      i := i + 1;
      if !IsHashName(node.name) {
        continue;
      }
      var problem := HashProblem(lib, payload, node);
      if problem.Some? {
        report.Add(Issue(true, problem.value, image.name));
      }
    }
  }

  method CheckAllImages(report: FirmwareReport, lib: Libraries, nodes: seq<Record>, images: seq<nat>)
    returns (error: Option<FitError>)
    requires AllInside(nodes) && Inside(images, nodes)
    modifies report
    ensures match CheckImages(lib, nodes, images, old(report.issues))
      case Ok(issues) => error == None && report.issues == issues
      case Err(e) => error == Some(e)
  {
    var i := 0;
    while i < |images|
      invariant 0 <= i <= |images|
      invariant CheckImages(lib, nodes, images[i..], report.issues)
             == CheckImages(lib, nodes, images, old(report.issues))
    {
      var image := nodes[images[i]];
      assert images[i..][1..] == images[i + 1..];
      i := i + 1;
      var payload := Lookup(image.properties, DATA);
      if payload.None? {
        report.Add(Issue(true, NoInlineData, image.name));
        continue;
      }
      var kind := StringOf(image, TYPE);
      if kind.Err? {
        return Some(kind.error);
      }
      var compression := StringOf(image, COMPRESSION);
      if compression.Err? {
        return Some(compression.error);
      }
      CheckImageHashes(report, lib, nodes, image, payload.value);
    }
    return None;
  }

  // What validation means ----------------------------------------------------------

  /** Every hash node of the image holds. */
  ghost predicate ImageSound(lib: Libraries, nodes: seq<Record>, image: Record)
    requires Inside(image.children, nodes)
  {
    && Lookup(image.properties, DATA).Some?
    && forall i :: 0 <= i < |image.children| ==> HashSoundAt(lib, nodes, image, i)
  }

  ghost predicate HashSoundAt(lib: Libraries, nodes: seq<Record>, image: Record, i: nat)
    requires Inside(image.children, nodes) && i < |image.children| && Lookup(image.properties, DATA).Some?
  {
    var node := nodes[image.children[i]];
    IsHashName(node.name) ==> HashHolds(lib, Lookup(image.properties, DATA).value, node)
  }

  lemma {:induction false} HashesSoundIff(lib: Libraries, nodes: seq<Record>, image: seq<byte>, payload: seq<byte>,
                                          children: seq<nat>, issues: seq<Issue>)
    requires Inside(children, nodes)
    ensures Compatible(CheckHashes(lib, nodes, image, payload, children, issues)) <==>
              Compatible(issues) && forall i :: 0 <= i < |children| && IsHashName(nodes[children[i]].name) ==>
                                      HashHolds(lib, payload, nodes[children[i]])
    decreases |children|
  {
    if children != [] {
      var node := nodes[children[0]];
      NoProblemIff(lib, payload, node);
      var problem := if IsHashName(node.name) then HashProblem(lib, payload, node) else None;
      var more := if problem.Some? then issues + [Issue(true, problem.value, image)] else issues;
      assert problem.Some? ==> more[|issues|].error;
      assert forall i :: 0 <= i < |issues| ==> more[i] == issues[i];
      HashesSoundIff(lib, nodes, image, payload, children[1..], more);
      assert forall i :: 0 < i < |children| ==> children[i] == children[1..][i - 1];
    }
  }

  lemma ImageSoundMeans(lib: Libraries, nodes: seq<Record>, image: Record, payload: seq<byte>)
    requires Inside(image.children, nodes) && Lookup(image.properties, DATA) == Some(payload)
    ensures ImageSound(lib, nodes, image) <==>
              forall i :: 0 <= i < |image.children| && IsHashName(nodes[image.children[i]].name) ==>
                            HashHolds(lib, payload, nodes[image.children[i]])
  {
    if ImageSound(lib, nodes, image) {
      forall i | 0 <= i < |image.children| && IsHashName(nodes[image.children[i]].name)
        ensures HashHolds(lib, payload, nodes[image.children[i]])
      {
        assert HashSoundAt(lib, nodes, image, i);
      }
    }
  }

  /** Images are found compatible exactly when every one has inline data and all its
      hashes hold. */
  lemma {:induction false} ImagesSoundIff(lib: Libraries, nodes: seq<Record>, images: seq<nat>, issues: seq<Issue>)
    requires AllInside(nodes) && Inside(images, nodes) && CheckImages(lib, nodes, images, issues).Ok?
    ensures Compatible(CheckImages(lib, nodes, images, issues).value) <==>
              Compatible(issues) && forall i :: 0 <= i < |images| ==> ImageSound(lib, nodes, nodes[images[i]])
    decreases |images|
  {
    if images != [] {
      var image := nodes[images[0]];
      var rest := images[1..];
      assert forall i :: 0 < i < |images| ==> images[i] == rest[i - 1];
      match Lookup(image.properties, DATA)
      case None =>
        var more := issues + [Issue(true, NoInlineData, image.name)];
        assert more[|issues|].error;
        ImagesSoundIff(lib, nodes, rest, more);
      case Some(payload) =>
        HashesSoundIff(lib, nodes, image.name, payload, image.children, issues);
        ImageSoundMeans(lib, nodes, image, payload);
        ImagesSoundIff(lib, nodes, rest, CheckHashes(lib, nodes, image.name, payload, image.children, issues));
    }
  }
}
