/** Validating a whole FIT artifact, and writing out the images that one of its
    configurations selects. */
module FitExtraction {
  import opened Bytes
  import DfuSuffix
  import Fdt
  import opened FdtLinks
  import opened FdtPaths
  import FdtTokens
  import opened FdtTree
  import opened Fit
  import opened Text
  import opened Wrappers

  // Validation -------------------------------------------------------------------

  function Lower(s: seq<byte>): (r: seq<byte>)
    ensures |r| == |s|
  {
    seq(|s|, i requires 0 <= i < |s| => if 0x41 <= s[i] <= 0x5a then s[i] + 0x20 else s[i])
  }

  /** What follows the tree: the legacy MD5 line, a DFU suffix, or something unknown. */
  function TrailerIssues(lib: Libraries, artifact: seq<byte>, tree: seq<byte>, trailer: seq<byte>): seq<Issue> {
    if trailer == [] then []
    else if |trailer| == 33 && trailer[32] == 0x0a then
      (if Lower(trailer[..32]) != lib.md5Hex(tree) then [Issue(true, Md5Trailer, [])] else [])
      + [Issue(false, LegacyAuthenticity, [])]
    else if |trailer| == 16 && trailer[8..11] == [0x55, 0x46, 0x44] then
      if DfuSuffix.Parse(artifact, true).Err? then [Issue(true, BadDfuSuffix, [])] else []
    else [Issue(false, UnknownTrailer, [])]
  }

  lemma ParsedIsLinked(artifact: seq<byte>)
    requires Fdt.Parsed(artifact).Ok?
    ensures var flat := Fdt.Parsed(artifact).value;
      flat.nodes != [] && Linked(flat.nodes) && AllInside(flat.nodes) && flat.header.totalSize <= |artifact|
  {
    var before, t, after := Fdt.AcceptedMeaning(artifact);
    var nodes := Fdt.Parsed(artifact).value.nodes;
    forall k | 0 <= k < |nodes| ensures Inside(nodes[k].children, nodes) {
      assert ChildLinks(nodes, k);
    }
  }

  const IMAGES_PATH: seq<byte> := [SLASH] + IMAGES
  const CONFIGURATIONS_PATH: seq<byte> := [SLASH] + CONFIGURATIONS

  /** The issues of a parsed tree, after those of its trailer. */
  function TreeIssues(lib: Libraries, nodes: seq<Record>, issues: seq<Issue>): Result<seq<Issue>, FitError>
    requires nodes != [] && Linked(nodes) && AllInside(nodes)
  {
    var _ :- StringOf(nodes[0], DESCRIPTION);
    var (images, configurations) := (Find(nodes, IMAGES_PATH), Find(nodes, CONFIGURATIONS_PATH));
    if images.None? || configurations.None? then Ok(issues + [Issue(true, Layout, [])])
    else CheckImages(lib, nodes, nodes[images.value].children, issues)
  }

  /** All issues of an artifact. Undecodable text is not an issue but an error. */
  function Validated(lib: Libraries, artifact: seq<byte>): Result<seq<Issue>, FitError> {
    match Fdt.Parsed(artifact)
    case Err(error) => if error == FdtTokens.NotText then Err(NotText) else Ok([Issue(true, Structure, [])])
    case Ok(flat) =>
      ParsedIsLinked(artifact);
      var issues := TrailerIssues(lib, artifact, artifact[..flat.header.totalSize], flat.trailer);
      TreeIssues(lib, flat.nodes, issues)
  }

  method ValidateFitImage(lib: Libraries, artifact: seq<byte>) returns (report: FirmwareReport, error: Option<FitError>)
    ensures fresh(report)
    ensures match Validated(lib, artifact)
      case Ok(issues) => error == None && report.issues == issues
      case Err(e) => error == Some(e)
  {
    report := new FirmwareReport();
    var parsed := Fdt.Parsed(artifact);
    if parsed.Err? {
      if parsed.error == FdtTokens.NotText {
        return report, Some(NotText);
      }
      report.Add(Issue(true, Structure, []));
      return report, None;
    }
    ParsedIsLinked(artifact);
    var nodes := parsed.value.nodes;
    report.issues := TrailerIssues(lib, artifact, artifact[..parsed.value.header.totalSize], parsed.value.trailer);
    var description := StringOf(nodes[0], DESCRIPTION);
    if description.Err? {
      return report, Some(description.error);
    }
    var (images, configurations) := (Find(nodes, IMAGES_PATH), Find(nodes, CONFIGURATIONS_PATH));
    if images.None? || configurations.None? {
      report.Add(Issue(true, Layout, []));
      return report, None;
    }
    error := CheckAllImages(report, lib, nodes, nodes[images.value].children);
  }

  /** Every image of the tree has inline data, and every hash it declares is right. */
  ghost predicate TreeSound(lib: Libraries, nodes: seq<Record>)
    requires nodes != [] && Linked(nodes) && AllInside(nodes)
  {
    && Find(nodes, IMAGES_PATH).Some? && Find(nodes, CONFIGURATIONS_PATH).Some?
    && ImagesSound(lib, nodes, nodes[Find(nodes, IMAGES_PATH).value].children)
  }

  ghost predicate ImagesSound(lib: Libraries, nodes: seq<Record>, images: seq<nat>)
    requires AllInside(nodes) && Inside(images, nodes)
  {
    forall i :: 0 <= i < |images| ==> ImageSound(lib, nodes, nodes[images[i]])
  }

  lemma TreeCompatibleIff(lib: Libraries, nodes: seq<Record>, issues: seq<Issue>)
    requires nodes != [] && Linked(nodes) && AllInside(nodes) && TreeIssues(lib, nodes, issues).Ok?
    ensures Compatible(TreeIssues(lib, nodes, issues).value) <==> Compatible(issues) && TreeSound(lib, nodes)
  {
    var (images, configurations) := (Find(nodes, IMAGES_PATH), Find(nodes, CONFIGURATIONS_PATH));
    if images.None? || configurations.None? {
      assert (issues + [Issue(true, Layout, [])])[|issues|].error;
    } else {
      ImagesSoundIff(lib, nodes, nodes[images.value].children, issues);
    }
  }

  /** A validated artifact is compatible exactly when its tree parses, its trailer is
      not wrong, and every hash of every image is right. */
  lemma CompatibleIff(lib: Libraries, artifact: seq<byte>)
    requires Validated(lib, artifact).Ok?
    ensures Compatible(Validated(lib, artifact).value) <==> Fdt.Parsed(artifact).Ok? && Acceptable(lib, artifact)
  {
    if Fdt.Parsed(artifact).Ok? {
      ParsedIsLinked(artifact);
      var flat := Fdt.Parsed(artifact).value;
      var issues := TrailerIssues(lib, artifact, artifact[..flat.header.totalSize], flat.trailer);
      TreeCompatibleIff(lib, flat.nodes, issues);
    } else {
      assert Validated(lib, artifact).value[0].error;
    }
  }

  ghost predicate Acceptable(lib: Libraries, artifact: seq<byte>)
    requires Fdt.Parsed(artifact).Ok?
  {
    ParsedIsLinked(artifact);
    var flat := Fdt.Parsed(artifact).value;
    && Compatible(TrailerIssues(lib, artifact, artifact[..flat.header.totalSize], flat.trailer))
    && TreeSound(lib, flat.nodes)
  }

  // Selecting images ---------------------------------------------------------------

  predicate SafeName(name: seq<byte>) {
    SLASH !in name && BACKSLASH !in name && name != [DOT] && name != [DOT, DOT]
  }

  /** `_node_reference` */
  function Reference(configuration: Record, property: seq<byte>): Result<Option<seq<byte>>, FitError> {
    var value :- StringOf(configuration, property);
    if value.None? then Ok(None)
    else if value.value == [] || !SafeName(value.value) then Err(UnsafeReference)
    else Ok(value)
  }

  /** `_find_child` */
  function FindImage(nodes: seq<Record>, images: nat, name: seq<byte>): (r: Result<nat, FitError>)
    requires Linked(nodes) && images < |nodes|
    ensures r.Ok? ==> r.value < |nodes|
  {
    match Child(nodes, images, name)
    case None => Err(MissingImage)
    case Some(k) => Ok(k)
  }

  /** The compression an image declares; none if it declares nothing. */
  function CompressionOf(image: Record): Result<seq<byte>, FitError> {
    var compression :- StringOf(image, COMPRESSION);
    Ok(if compression.None? || compression.value == [] then NONE else compression.value)
  }

  datatype Payload = Payload(bytes: seq<byte>, compression: seq<byte>)

  /** `_inline_image_payload` */
  function InlinePayload(image: Record, expected: seq<byte>): Result<Payload, FitError> {
    var kind :- StringOf(image, TYPE);
    if (if kind.Some? then kind.value else []) != expected then Err(WrongType)
    else
      match Lookup(image.properties, DATA)
      case None => Err(NotInline)
      case Some(bytes) =>
        var compression :- CompressionOf(image);
        Ok(Payload(bytes, compression))
  }

  datatype Ramdisk = Ramdisk(bytes: seq<byte>, gzip: bool)

  datatype Outputs = Outputs(
    configuration: seq<byte>, kernel: seq<byte>, deviceTree: seq<byte>, ramdisk: Option<Ramdisk>)

  /** The name asked for, or the default one, or the first. */
  function ConfigurationName(nodes: seq<Record>, configurations: nat, asked: seq<byte>): Result<seq<byte>, FitError>
    requires configurations < |nodes| && AllInside(nodes)
  {
    if asked != [] then Ok(asked)
    else
      var default :- StringOf(nodes[configurations], DEFAULT);
      if default.Some? then Ok(default.value)
      else if nodes[configurations].children == [] then Err(NoConfigurations)
      else Ok(nodes[nodes[configurations].children[0]].name)
  }

  function RamdiskOf(nodes: seq<Record>, images: nat, name: Option<seq<byte>>): Result<Option<Ramdisk>, FitError>
    requires Linked(nodes) && images < |nodes|
  {
    if name.None? then Ok(None)
    else
      var k :- FindImage(nodes, images, name.value);
      var payload :- InlinePayload(nodes[k], RAMDISK);
      if payload.compression != NONE && payload.compression != GZIP then Err(BadRamdiskCompression)
      else if payload.compression == GZIP && !([0x1f, 0x8b] <= payload.bytes) then Err(NotGzip)
      else Ok(Some(Ramdisk(payload.bytes, payload.compression == GZIP)))
  }

  datatype References = References(
    kernel: seq<byte>, fdt: seq<byte>, ramdisk: Option<seq<byte>>, fpga: Option<seq<byte>>)

  /** The image names in a configuration; a kernel and a device tree are required. */
  function ReferencesOf(configuration: Record): Result<References, FitError> {
    var kernel :- Reference(configuration, KERNEL);
    var fdt :- Reference(configuration, FDT);
    var ramdisk :- Reference(configuration, RAMDISK);
    var fpga :- Reference(configuration, FPGA);
    if kernel.None? || fdt.None? then Err(MissingReference)
    else Ok(References(kernel.value, fdt.value, ramdisk, fpga))
  }

  /** The images of those names. */
  function Selected(nodes: seq<Record>, images: nat, refs: References, name: seq<byte>): Result<Outputs, FitError>
    requires Linked(nodes) && images < |nodes|
  {
    var _ :- if refs.fpga.Some? then FindImage(nodes, images, refs.fpga.value) else Ok(0);
    var k :- FindImage(nodes, images, refs.kernel);
    var d :- FindImage(nodes, images, refs.fdt);
    var kernel :- InlinePayload(nodes[k], KERNEL);
    var deviceTree :- InlinePayload(nodes[d], FLAT_DT);
    if kernel.compression != NONE || deviceTree.compression != NONE then Err(Compressed)
    else if Fdt.Parsed(deviceTree.bytes).Err? then Err(BadDeviceTree)
    else
      var ramdisk :- RamdiskOf(nodes, images, refs.ramdisk);
      Ok(Outputs(name, kernel.bytes, deviceTree.bytes, ramdisk))
  }

  /** The outputs of the configuration that is asked for or chosen. */
  function Chosen(nodes: seq<Record>, images: nat, configurations: nat, asked: seq<byte>): Result<Outputs, FitError>
    requires Linked(nodes) && AllInside(nodes) && images < |nodes| && configurations < |nodes|
  {
    var name :- ConfigurationName(nodes, configurations, asked);
    if !SafeName(name) then Err(UnsafeConfiguration)
    else
      match Child(nodes, configurations, name)
      case None => Err(MissingConfiguration)
      case Some(selected) =>
        var refs :- ReferencesOf(nodes[selected]);
        Selected(nodes, images, refs, name)
  }

  /** Everything up to the first file written; `asked` is empty for no preference. */
  function Extracted(lib: Libraries, artifact: seq<byte>, asked: seq<byte>): Result<Outputs, FitError> {
    var issues :- Validated(lib, artifact);
    if !Compatible(issues) then Err(FailedValidation)
    else
      CompatibleIff(lib, artifact);
      ParsedIsLinked(artifact);
      var nodes := Fdt.Parsed(artifact).value.nodes;
      Chosen(nodes, Find(nodes, IMAGES_PATH).value, Find(nodes, CONFIGURATIONS_PATH).value, asked)
  }

  // What extraction guarantees -------------------------------------------------------

  /** `bytes` is the inline data of the `/images` child that the configuration names,
      which has the required type and compression and whose hashes are all right. */
  ghost predicate FromImage(lib: Libraries, nodes: seq<Record>, images: nat, configuration: nat,
                            property: seq<byte>, kind: seq<byte>, compression: seq<byte>, bytes: seq<byte>)
    requires Linked(nodes) && AllInside(nodes) && images < |nodes| && configuration < |nodes|
  {
    exists name, k ::
      && StringOf(nodes[configuration], property) == Ok(Some(name)) && name != [] && SafeName(name)
      && Child(nodes, images, name) == Some(k) && k in nodes[images].children
      && StringOf(nodes[k], TYPE) == Ok(Some(kind)) && CompressionOf(nodes[k]) == Ok(compression)
      && Lookup(nodes[k].properties, DATA) == Some(bytes)
      && ImageSound(lib, nodes, nodes[k])
  }

  /** A ramdisk labelled as gzip starts with the gzip magic; any other is uncompressed. */
  ghost predicate RamdiskSound(lib: Libraries, nodes: seq<Record>, images: nat, selected: nat, r: Ramdisk)
    requires Linked(nodes) && AllInside(nodes) && images < |nodes| && selected < |nodes|
  {
    && FromImage(lib, nodes, images, selected, RAMDISK, RAMDISK, if r.gzip then GZIP else NONE, r.bytes)
    && (r.gzip ==> [0x1f, 0x8b] <= r.bytes)
  }

  /** The outputs are what one configuration names among images whose hashes all hold. */
  ghost predicate FromSoundImages(lib: Libraries, nodes: seq<Record>, images: nat, configurations: nat, out: Outputs)
    requires Linked(nodes) && AllInside(nodes) && images < |nodes| && configurations < |nodes|
  {
    && ImagesSound(lib, nodes, nodes[images].children)
    && SafeName(out.configuration) && Child(nodes, configurations, out.configuration).Some?
    && var selected := Child(nodes, configurations, out.configuration).value;
    && FromImage(lib, nodes, images, selected, KERNEL, KERNEL, NONE, out.kernel)
    && FromImage(lib, nodes, images, selected, FDT, FLAT_DT, NONE, out.deviceTree)
    && (out.ramdisk.Some? ==> RamdiskSound(lib, nodes, images, selected, out.ramdisk.value))
    && (out.ramdisk.None? <==> StringOf(nodes[selected], RAMDISK) == Ok(None))
    && Fdt.Parsed(out.deviceTree).Ok?
  }

  lemma PayloadFromImage(lib: Libraries, nodes: seq<Record>, images: nat, selected: nat, property: seq<byte>,
                         kind: seq<byte>, name: seq<byte>, k: nat, payload: Payload)
    requires Linked(nodes) && AllInside(nodes) && images < |nodes| && selected < |nodes|
    requires ImagesSound(lib, nodes, nodes[images].children)
    requires kind != [] && Reference(nodes[selected], property) == Ok(Some(name))
    requires FindImage(nodes, images, name) == Ok(k) && InlinePayload(nodes[k], kind) == Ok(payload)
    ensures FromImage(lib, nodes, images, selected, property, kind, payload.compression, payload.bytes)
  {
    hide StringOf, ImageSound, SafeName;
    assert ChildLinks(nodes, images);
    FirstNamedIs(nodes, nodes[images].children, name);
    var i :| 0 <= i < |nodes[images].children| && nodes[images].children[i] == k;
    assert ImageSound(lib, nodes, nodes[nodes[images].children[i]]);
  }

  lemma RamdiskFromImage(lib: Libraries, nodes: seq<Record>, images: nat, selected: nat, name: Option<seq<byte>>,
                         ramdisk: Option<Ramdisk>)
    requires Linked(nodes) && AllInside(nodes) && images < |nodes| && selected < |nodes|
    requires ImagesSound(lib, nodes, nodes[images].children)
    requires Reference(nodes[selected], RAMDISK) == Ok(name) && RamdiskOf(nodes, images, name) == Ok(ramdisk)
    ensures ramdisk.Some? ==> RamdiskSound(lib, nodes, images, selected, ramdisk.value)
    ensures ramdisk.None? <==> StringOf(nodes[selected], RAMDISK) == Ok(None)
  {
    if name.Some? {
      var k := FindImage(nodes, images, name.value).value;
      var payload := InlinePayload(nodes[k], RAMDISK).value;
      PayloadFromImage(lib, nodes, images, selected, RAMDISK, RAMDISK, name.value, k, payload);
    }
  }

  lemma ReferencesMeaning(configuration: Record, refs: References)
    requires ReferencesOf(configuration) == Ok(refs)
    ensures Reference(configuration, KERNEL) == Ok(Some(refs.kernel))
    ensures Reference(configuration, FDT) == Ok(Some(refs.fdt))
    ensures Reference(configuration, RAMDISK) == Ok(refs.ramdisk)
  {
  }

  lemma SelectedPayloads(nodes: seq<Record>, images: nat, refs: References, name: seq<byte>, out: Outputs)
    returns (k: nat, kernel: Payload, d: nat, deviceTree: Payload)
    requires Linked(nodes) && images < |nodes| && Selected(nodes, images, refs, name) == Ok(out)
    ensures FindImage(nodes, images, refs.kernel) == Ok(k) && InlinePayload(nodes[k], KERNEL) == Ok(kernel)
    ensures FindImage(nodes, images, refs.fdt) == Ok(d) && InlinePayload(nodes[d], FLAT_DT) == Ok(deviceTree)
    ensures RamdiskOf(nodes, images, refs.ramdisk) == Ok(out.ramdisk) && Fdt.Parsed(deviceTree.bytes).Ok?
    ensures kernel.compression == deviceTree.compression == NONE
    ensures out == Outputs(name, kernel.bytes, deviceTree.bytes, out.ramdisk)
  {
    k, d := FindImage(nodes, images, refs.kernel).value, FindImage(nodes, images, refs.fdt).value;
    kernel, deviceTree := InlinePayload(nodes[k], KERNEL).value, InlinePayload(nodes[d], FLAT_DT).value;
  }

  lemma SelectedFromSoundImages(lib: Libraries, nodes: seq<Record>, images: nat, configurations: nat, selected: nat,
                                refs: References, name: seq<byte>, out: Outputs)
    requires Linked(nodes) && AllInside(nodes) && images < |nodes| && configurations < |nodes|
    requires ImagesSound(lib, nodes, nodes[images].children) && SafeName(name)
    requires Child(nodes, configurations, name) == Some(selected) && ReferencesOf(nodes[selected]) == Ok(refs)
    requires Selected(nodes, images, refs, name) == Ok(out)
    ensures out.configuration == name && FromSoundImages(lib, nodes, images, configurations, out)
  {
    ReferencesMeaning(nodes[selected], refs);
    var k, kernel, d, deviceTree := SelectedPayloads(nodes, images, refs, name, out);
    PayloadFromImage(lib, nodes, images, selected, KERNEL, KERNEL, refs.kernel, k, kernel);
    PayloadFromImage(lib, nodes, images, selected, FDT, FLAT_DT, refs.fdt, d, deviceTree);
    RamdiskFromImage(lib, nodes, images, selected, refs.ramdisk, out.ramdisk);
  }

  lemma ChosenFromSoundImages(lib: Libraries, nodes: seq<Record>, images: nat, configurations: nat, asked: seq<byte>,
                              out: Outputs)
    requires Linked(nodes) && AllInside(nodes) && images < |nodes| && configurations < |nodes|
    requires ImagesSound(lib, nodes, nodes[images].children)
    requires Chosen(nodes, images, configurations, asked) == Ok(out)
    ensures FromSoundImages(lib, nodes, images, configurations, out)
    ensures ConfigurationName(nodes, configurations, asked) == Ok(out.configuration)
  {
    var name := ConfigurationName(nodes, configurations, asked).value;
    var selected := Child(nodes, configurations, name).value;
    var refs := ReferencesOf(nodes[selected]).value;
    SelectedFromSoundImages(lib, nodes, images, configurations, selected, refs, name, out);
  }

  /** Whenever anything is extracted, each payload is the inline data of the image its
      configuration names, of the required type, in a tree all of whose hashes hold. */
  lemma ExtractionIsHashSound(lib: Libraries, artifact: seq<byte>, asked: seq<byte>, out: Outputs)
    returns (nodes: seq<Record>, images: nat, configurations: nat)
    requires Extracted(lib, artifact, asked) == Ok(out)
    ensures Fdt.Parsed(artifact).Ok? && nodes == Fdt.Parsed(artifact).value.nodes
    ensures nodes != [] && Linked(nodes) && AllInside(nodes) && images < |nodes| && configurations < |nodes|
    ensures Find(nodes, IMAGES_PATH) == Some(images) && Find(nodes, CONFIGURATIONS_PATH) == Some(configurations)
    ensures FromSoundImages(lib, nodes, images, configurations, out)
    ensures ConfigurationName(nodes, configurations, asked) == Ok(out.configuration)
    ensures asked != [] ==> out.configuration == asked
  {
    CompatibleIff(lib, artifact);
    ParsedIsLinked(artifact);
    nodes := Fdt.Parsed(artifact).value.nodes;
    images, configurations := Find(nodes, IMAGES_PATH).value, Find(nodes, CONFIGURATIONS_PATH).value;
    ChosenFromSoundImages(lib, nodes, images, configurations, asked, out);
  }

  // Writing the files ----------------------------------------------------------------

  datatype File = KernelBin | DeviceTreeDtb | RamdiskImage(gzip: bool)

  class Directory {
    var files: map<File, seq<byte>>

    method AtomicWrite(file: File, bytes: seq<byte>)
      modifies this
      ensures files == old(files)[file := bytes]
    {
      files := files[file := bytes];
    }
  }

  /** The kernel, the device tree and the ramdisk if there is one are stored, and every
      other file is as before. */
  ghost predicate Stored(before: map<File, seq<byte>>, after: map<File, seq<byte>>, out: Outputs) {
    && KernelBin in after && after[KernelBin] == out.kernel
    && DeviceTreeDtb in after && after[DeviceTreeDtb] == out.deviceTree
    && (out.ramdisk.Some? ==>
          var file := RamdiskImage(out.ramdisk.value.gzip);
          file in after && after[file] == out.ramdisk.value.bytes)
    && forall file :: Untouched(file, out) ==>
         (file in after <==> file in before) && (file in after ==> after[file] == before[file])
  }

  predicate Untouched(file: File, out: Outputs) {
    match file
    case RamdiskImage(gzip) => out.ramdisk.None? || gzip != out.ramdisk.value.gzip
    case _ => false
  }

  /** What is stored is what one configuration of the artifact names, among images
      whose hashes all hold. */
  ghost predicate StoredFromSoundImages(lib: Libraries, artifact: seq<byte>, asked: seq<byte>,
                                        before: map<File, seq<byte>>, after: map<File, seq<byte>>, out: Outputs) {
    && Stored(before, after, out)
    && Fdt.Parsed(artifact).Ok? && var nodes := Fdt.Parsed(artifact).value.nodes;
    && nodes != [] && Linked(nodes) && AllInside(nodes)
    && Find(nodes, IMAGES_PATH).Some? && Find(nodes, CONFIGURATIONS_PATH).Some?
    && var (images, configurations) := (Find(nodes, IMAGES_PATH).value, Find(nodes, CONFIGURATIONS_PATH).value);
    && FromSoundImages(lib, nodes, images, configurations, out)
    && ConfigurationName(nodes, configurations, asked) == Ok(out.configuration)
  }

  method WriteOutputs(directory: Directory, out: Outputs)
    modifies directory
    ensures Stored(old(directory.files), directory.files, out)
  {
    directory.AtomicWrite(KernelBin, out.kernel);
    directory.AtomicWrite(DeviceTreeDtb, out.deviceTree);
    if out.ramdisk.Some? {
      directory.AtomicWrite(RamdiskImage(out.ramdisk.value.gzip), out.ramdisk.value.bytes);
    }
  }

  const CHOSEN_PATH: seq<byte> := [SLASH, 0x63, 0x68, 0x6f, 0x73, 0x65, 0x6e]
  const BOOTARGS: seq<byte> := [0x62, 0x6f, 0x6f, 0x74, 0x61, 0x72, 0x67, 0x73]

  /** `_chosen_bootargs`: the boot arguments in a device tree; none stands for the
      default ones. */
  function ChosenBootargs(deviceTree: seq<byte>): Result<Option<seq<byte>>, FitError>
    requires Fdt.Parsed(deviceTree).Ok?
  {
    ParsedIsLinked(deviceTree);
    var nodes := Fdt.Parsed(deviceTree).value.nodes;
    match Find(nodes, CHOSEN_PATH)
    case None => Ok(None)
    case Some(k) =>
      var text :- StringOf(nodes[k], BOOTARGS);
      Ok(if text == Some([]) then None else text)
  }

  lemma {:induction false} NulsAreText(s: seq<byte>)
    ensures Utf8(WithoutTrailingNuls(s)) <==> Utf8(s)
    decreases |s|
  {
    hide Utf8;
    if s != [] && s[|s| - 1] == 0 {
      var shorter := s[..|s| - 1];
      assert s == shorter + [NUL] + [];
      Utf8AroundAscii(shorter, NUL, []);
      NothingIsText();
      NulsAreText(shorter);
    }
  }

  lemma NothingIsText()
    ensures Utf8([])
  {
  }

  /** A property reads as text exactly when it is absent or its whole value is UTF-8. */
  lemma ReadsAsTextIff(node: Record, name: seq<byte>)
    ensures StringOf(node, name).Err? <==>
              Lookup(node.properties, name).Some? && !Utf8(Lookup(node.properties, name).value)
  {
    hide WithoutTrailingNuls, Split, AllText, Utf8;
    var value := Lookup(node.properties, name);
    if value.Some? {
      NulsAreText(value.value);
      PartsAreText(WithoutTrailingNuls(value.value));
    }
  }

  /** The boot arguments cannot be read exactly when the device tree has a `/chosen`
      node whose `bootargs` value is not UTF-8. */
  lemma BootargsFailIff(deviceTree: seq<byte>)
    requires Fdt.Parsed(deviceTree).Ok?
    ensures var nodes := Fdt.Parsed(deviceTree).value.nodes;
      && nodes != [] && Linked(nodes)
      && (ChosenBootargs(deviceTree).Err? <==>
            && Find(nodes, CHOSEN_PATH).Some?
            && var value := Lookup(nodes[Find(nodes, CHOSEN_PATH).value].properties, BOOTARGS);
               value.Some? && !Utf8(value.value))
  {
    hide Utf8, Fdt.Parsed, Find, Linked, StringOf, Lookup, AllInside;
    ParsedIsLinked(deviceTree);
    var chosen := Find(Fdt.Parsed(deviceTree).value.nodes, CHOSEN_PATH);
    if chosen.Some? {
      ReadsAsTextIff(Fdt.Parsed(deviceTree).value.nodes[chosen.value], BOOTARGS);
    }
  }

  datatype BootArtifacts = BootArtifacts(outputs: Outputs, bootargs: Option<seq<byte>>)

  /** Files are written only after everything was checked, and then hold exactly the
      inline data of hash-sound images. An error leaves them alone, unless it is the
      one error found after writing: boot arguments that are not text. */
  method ExtractFitImage(lib: Libraries, artifact: seq<byte>, asked: seq<byte>, directory: Directory)
    returns (result: Result<BootArtifacts, FitError>)
    modifies directory
    ensures match Extracted(lib, artifact, asked)
      case Err(error) => result == Err(error) && directory.files == old(directory.files)
      case Ok(out) =>
        && StoredFromSoundImages(lib, artifact, asked, old(directory.files), directory.files, out)
        && match ChosenBootargs(out.deviceTree)
           case Err(error) => result == Err(error)
           case Ok(bootargs) => result == Ok(BootArtifacts(out, bootargs))
  {
    hide Validated, Fdt.Parsed, Find, Chosen, Compatible, FromSoundImages, Linked, ConfigurationName, Stored,
         ChosenBootargs, AllInside;
    var report, error := ValidateFitImage(lib, artifact);
    if error.Some? {
      return Err(error.value);
    }
    if !Compatible(report.issues) {
      return Err(FailedValidation);
    }
    CompatibleIff(lib, artifact);
    ParsedIsLinked(artifact);
    var nodes := Fdt.Parsed(artifact).value.nodes;
    var (images, configurations) := (Find(nodes, IMAGES_PATH).value, Find(nodes, CONFIGURATIONS_PATH).value);
    var chosen := Chosen(nodes, images, configurations, asked);
    if chosen.Err? {
      return Err(chosen.error);
    }
    var out := chosen.value;
    ChosenFromSoundImages(lib, nodes, images, configurations, asked, out);
    WriteOutputs(directory, out);
    var bootargs := ChosenBootargs(out.deviceTree);
    if bootargs.Err? {
      return Err(bootargs.error);
    }
    return Ok(BootArtifacts(out, bootargs.value));
  }
}
