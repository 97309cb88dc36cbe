/** What FIT extraction takes from an accepted container: every step of the selection as
    a relation between the tree and the files, in both directions. */
module FitSelection {
  import opened Bytes
  import Fdt
  import opened FdtLinks
  import opened FdtPaths
  import opened FdtTree
  import opened Fit
  import opened FitExtraction
  import FitReports
  import opened Text
  import opened Wrappers

  // Text -----------------------------------------------------------------------------

  /** The text before the first NUL. */
  ghost predicate TextOf(value: seq<byte>, t: seq<byte>) {
    t <= value && 0 !in t && (|t| == |value| || value[|t|] == 0)
  }

  /** A node has a property whose value is UTF-8 and starts with this text. */
  ghost predicate HasText(node: Record, name: seq<byte>, t: seq<byte>) {
    && Lookup(node.properties, name).Some?
    && Utf8(Lookup(node.properties, name).value) && TextOf(Lookup(node.properties, name).value, t)
  }

  ghost predicate Lacks(node: Record, name: seq<byte>) {
    forall i :: 0 <= i < |node.properties| ==> node.properties[i].name != name
  }

  lemma {:induction false} TrimmedNuls(s: seq<byte>)
    ensures WithoutTrailingNuls(s) <= s
    ensures forall i :: |WithoutTrailingNuls(s)| <= i < |s| ==> s[i] == 0
    decreases |s|
  {
    if s != [] && s[|s| - 1] == 0 {
      TrimmedNuls(s[..|s| - 1]);
    }
  }

  lemma FirstText(value: seq<byte>)
    ensures TextOf(value, Split(WithoutTrailingNuls(value), NUL)[0])
  {
    hide Split;
    var trimmed := WithoutTrailingNuls(value);
    TrimmedNuls(value);
    FitReports.FirstPartStarts(trimmed, NUL);
    SplitPartsAreFree(trimmed, NUL);
    var first := Split(trimmed, NUL)[0];
    assert first in Split(trimmed, NUL);
  }

  lemma OneText(value: seq<byte>, s: seq<byte>, t: seq<byte>)
    requires TextOf(value, s) && TextOf(value, t)
    ensures s == t
  {
  }

  /** A string property is its text up to the first NUL, if the whole value is UTF-8. */
  lemma StringOfIff(node: Record, name: seq<byte>, t: seq<byte>)
    ensures StringOf(node, name) == Ok(Some(t)) <==> HasText(node, name, t)
    ensures StringOf(node, name) == Ok(None) <==> Lacks(node, name)
  {
    hide Split, AllText, Utf8, WithoutTrailingNuls, TextOf;
    var value := Lookup(node.properties, name);
    if value.Some? {
      var parts := Split(WithoutTrailingNuls(value.value), NUL);
      NulsAreText(value.value);
      PartsAreText(WithoutTrailingNuls(value.value));
      FirstText(value.value);
      if TextOf(value.value, t) {
        OneText(value.value, parts[0], t);
      }
    }
  }

  // Children -------------------------------------------------------------------------

  /** `k` is the first child of node `p` with a name. */
  ghost predicate FirstOf(nodes: seq<Record>, p: nat, name: seq<byte>, k: nat)
    requires Linked(nodes) && p < |nodes|
  {
    exists i ::
      && 0 <= i < |nodes[p].children| && nodes[p].children[i] == k && k < |nodes| && nodes[k].name == name
      && forall j :: 0 <= j < i ==> nodes[p].children[j] < |nodes| && nodes[nodes[p].children[j]].name != name
  }

  lemma ChildIff(nodes: seq<Record>, p: nat, name: seq<byte>, k: nat)
    requires Linked(nodes) && p < |nodes|
    ensures Child(nodes, p, name) == Some(k) <==> FirstOf(nodes, p, name, k)
  {
    assert ChildLinks(nodes, p);
    hide Linked, ChildLinks;
    FirstNamedIs(nodes, nodes[p].children, name);
  }

  // Names ----------------------------------------------------------------------------

  /** No slash, no backslash, and not one or two dots. */
  ghost predicate Plain(name: seq<byte>) {
    && (forall i :: 0 <= i < |name| ==> name[i] != 0x2f && name[i] != 0x5c)
    && name != [0x2e] && name != [0x2e, 0x2e]
  }

  lemma SafeIff(name: seq<byte>)
    ensures SafeName(name) <==> Plain(name)
  {
  }

  /** The configuration asked for, or else the default one, or else the first. */
  ghost predicate NamesConfiguration(nodes: seq<Record>, configurations: nat, asked: seq<byte>, name: seq<byte>)
    requires AllInside(nodes) && configurations < |nodes|
  {
    var node := nodes[configurations];
    if asked != [] then name == asked
    else if !Lacks(node, [0x64, 0x65, 0x66, 0x61, 0x75, 0x6c, 0x74]) then
      HasText(node, [0x64, 0x65, 0x66, 0x61, 0x75, 0x6c, 0x74], name)
    else node.children != [] && name == nodes[node.children[0]].name
  }

  lemma ConfigurationNameIff(nodes: seq<Record>, configurations: nat, asked: seq<byte>, name: seq<byte>)
    requires AllInside(nodes) && configurations < |nodes|
    ensures ConfigurationName(nodes, configurations, asked) == Ok(name) <==>
            NamesConfiguration(nodes, configurations, asked, name)
  {
    hide HasText, Lacks, StringOf;
    var node := nodes[configurations];
    assert DEFAULT == [0x64, 0x65, 0x66, 0x61, 0x75, 0x6c, 0x74];
    forall t
      ensures StringOf(node, DEFAULT) == Ok(Some(t)) <==> HasText(node, DEFAULT, t)
      ensures StringOf(node, DEFAULT) == Ok(None) <==> Lacks(node, DEFAULT)
    {
      StringOfIff(node, DEFAULT, t);
    }
  }

  /** A configuration names an image: a nonempty plain text, and the first image of that
      name. */
  ghost predicate NamesImage(nodes: seq<Record>, images: nat, configuration: Record, property: seq<byte>, k: nat)
    requires Linked(nodes) && images < |nodes|
  {
    exists name ::
      HasText(configuration, property, name) && name != [] && Plain(name) && FirstOf(nodes, images, name, k)
  }

  lemma ReferenceIff(configuration: Record, property: seq<byte>, name: seq<byte>)
    ensures Reference(configuration, property) == Ok(Some(name)) <==>
            HasText(configuration, property, name) && name != [] && Plain(name)
    ensures Reference(configuration, property) == Ok(None) <==> Lacks(configuration, property)
  {
    hide HasText, Lacks, StringOf, SafeName, Plain;
    StringOfIff(configuration, property, name);
    SafeIff(name);
  }

  lemma ImageNamedIff(nodes: seq<Record>, images: nat, configuration: Record, property: seq<byte>, k: nat)
    requires Linked(nodes) && images < |nodes|
    ensures NamesImage(nodes, images, configuration, property, k) <==>
            && Reference(configuration, property).Ok? && Reference(configuration, property).value.Some?
            && FindImage(nodes, images, Reference(configuration, property).value.value) == Ok(k)
  {
    hide HasText, Reference, Plain, FirstOf, Linked, Child;
    forall name ensures Reference(configuration, property) == Ok(Some(name)) <==>
                          HasText(configuration, property, name) && name != [] && Plain(name)
    {
      ReferenceIff(configuration, property, name);
    }
    forall name ensures Child(nodes, images, name) == Some(k) <==> FirstOf(nodes, images, name, k) {
      ChildIff(nodes, images, name, k);
    }
  }

  // Payloads -------------------------------------------------------------------------

  /** No compression declared, or the empty text, is `none`. */
  ghost predicate Compression(image: Record, c: seq<byte>) {
    || (HasText(image, [0x63, 0x6f, 0x6d, 0x70, 0x72, 0x65, 0x73, 0x73, 0x69, 0x6f, 0x6e], c) && c != [])
    || (c == [0x6e, 0x6f, 0x6e, 0x65]
        && (Lacks(image, [0x63, 0x6f, 0x6d, 0x70, 0x72, 0x65, 0x73, 0x73, 0x69, 0x6f, 0x6e])
            || HasText(image, [0x63, 0x6f, 0x6d, 0x70, 0x72, 0x65, 0x73, 0x73, 0x69, 0x6f, 0x6e], [])))
  }

  /** The image's inline data, of this type and compression. */
  ghost predicate Carries(image: Record, kind: seq<byte>, c: seq<byte>, bytes: seq<byte>) {
    && HasText(image, [0x74, 0x79, 0x70, 0x65], kind) && Compression(image, c)
    && Lookup(image.properties, [0x64, 0x61, 0x74, 0x61]) == Some(bytes)
  }

  lemma CompressionIff(image: Record, c: seq<byte>)
    ensures CompressionOf(image) == Ok(c) <==> Compression(image, c)
  {
    hide HasText, Lacks, StringOf;
    assert COMPRESSION == [0x63, 0x6f, 0x6d, 0x70, 0x72, 0x65, 0x73, 0x73, 0x69, 0x6f, 0x6e];
    assert NONE == [0x6e, 0x6f, 0x6e, 0x65];
    StringOfIff(image, COMPRESSION, c);
    StringOfIff(image, COMPRESSION, []);
  }

  lemma InlineParts(image: Record, kind: seq<byte>, c: seq<byte>, bytes: seq<byte>)
    requires kind != []
    ensures InlinePayload(image, kind) == Ok(Payload(bytes, c)) <==>
            && StringOf(image, TYPE) == Ok(Some(kind)) && CompressionOf(image) == Ok(c)
            && Lookup(image.properties, DATA) == Some(bytes)
  {
    hide StringOf, CompressionOf, Lookup;
  }

  lemma InlineIff(image: Record, kind: seq<byte>, c: seq<byte>, bytes: seq<byte>)
    requires kind != []
    ensures InlinePayload(image, kind) == Ok(Payload(bytes, c)) <==> Carries(image, kind, c, bytes)
  {
    hide HasText, StringOf, Lookup, Compression, CompressionOf, InlinePayload;
    InlineParts(image, kind, c, bytes);
    CompressionIff(image, c);
    StringOfIff(image, TYPE, kind);
    assert TYPE == [0x74, 0x79, 0x70, 0x65] && DATA == [0x64, 0x61, 0x74, 0x61];
  }

  /** A configuration's property names an image that carries these bytes. */
  ghost predicate Takes(nodes: seq<Record>, images: nat, configuration: Record, property: seq<byte>,
                        kind: seq<byte>, c: seq<byte>, bytes: seq<byte>)
    requires Linked(nodes) && images < |nodes|
  {
    exists k: nat ::
      k < |nodes| && NamesImage(nodes, images, configuration, property, k) && Carries(nodes[k], kind, c, bytes)
  }

  lemma TakesIff(nodes: seq<Record>, images: nat, configuration: Record, property: seq<byte>, kind: seq<byte>,
                 c: seq<byte>, bytes: seq<byte>)
    requires Linked(nodes) && images < |nodes| && kind != []
    ensures Takes(nodes, images, configuration, property, kind, c, bytes) <==>
            && Reference(configuration, property).Ok? && Reference(configuration, property).value.Some?
            && var found := FindImage(nodes, images, Reference(configuration, property).value.value);
               found.Ok? && InlinePayload(nodes[found.value], kind) == Ok(Payload(bytes, c))
  {
    hide NamesImage, Carries, Reference, FindImage, InlinePayload, Linked;
    forall k: nat | k < |nodes|
      ensures NamesImage(nodes, images, configuration, property, k) <==>
              && Reference(configuration, property).Ok? && Reference(configuration, property).value.Some?
              && FindImage(nodes, images, Reference(configuration, property).value.value) == Ok(k)
      ensures InlinePayload(nodes[k], kind) == Ok(Payload(bytes, c)) <==> Carries(nodes[k], kind, c, bytes)
    {
      ImageNamedIff(nodes, images, configuration, property, k);
      InlineIff(nodes[k], kind, c, bytes);
    }
  }

  // The whole selection ----------------------------------------------------------------

  ghost predicate TakesRamdisk(nodes: seq<Record>, images: nat, configuration: Record, ramdisk: Option<Ramdisk>)
    requires Linked(nodes) && images < |nodes|
  {
    match ramdisk
    case None => Lacks(configuration, RAMDISK)
    case Some(r) =>
      && Takes(nodes, images, configuration, RAMDISK, RAMDISK,
               if r.gzip then [0x67, 0x7a, 0x69, 0x70] else [0x6e, 0x6f, 0x6e, 0x65], r.bytes)
      && (r.gzip ==> |r.bytes| >= 2 && r.bytes[0] == 0x1f && r.bytes[1] == 0x8b)
  }

  ghost predicate TakesFpga(nodes: seq<Record>, images: nat, configuration: Record)
    requires Linked(nodes) && images < |nodes|
  {
    Lacks(configuration, FPGA) || exists k: nat :: k < |nodes| && NamesImage(nodes, images, configuration, FPGA, k)
  }

  /** A configuration yields these outputs. */
  ghost predicate Yields(nodes: seq<Record>, images: nat, configuration: Record, out: Outputs)
    requires Linked(nodes) && images < |nodes|
  {
    && Takes(nodes, images, configuration, KERNEL, KERNEL, [0x6e, 0x6f, 0x6e, 0x65], out.kernel)
    && Takes(nodes, images, configuration, FDT, FLAT_DT, [0x6e, 0x6f, 0x6e, 0x65], out.deviceTree)
    && Fdt.Parsed(out.deviceTree).Ok?
    && TakesRamdisk(nodes, images, configuration, out.ramdisk) && TakesFpga(nodes, images, configuration)
  }

  /** What `References` and `Selected` make of one configuration. */
  function SelectedFrom(nodes: seq<Record>, images: nat, configuration: Record, name: seq<byte>)
    : Result<Outputs, FitError>
    requires Linked(nodes) && images < |nodes|
  {
    var refs :- ReferencesOf(configuration);
    Selected(nodes, images, refs, name)
  }

  lemma RamdiskIff(nodes: seq<Record>, images: nat, configuration: Record, ramdisk: Option<Ramdisk>)
    requires Linked(nodes) && images < |nodes|
    ensures TakesRamdisk(nodes, images, configuration, ramdisk) <==>
            && Reference(configuration, RAMDISK).Ok?
            && RamdiskOf(nodes, images, Reference(configuration, RAMDISK).value) == Ok(ramdisk)
  {
    hide Takes, Reference, FindImage, InlinePayload, Linked, Lacks;
    assert GZIP == [0x67, 0x7a, 0x69, 0x70] && NONE == [0x6e, 0x6f, 0x6e, 0x65] && GZIP[0] != NONE[0];
    ReferenceIff(configuration, RAMDISK, []);
    forall c, bytes
      ensures Takes(nodes, images, configuration, RAMDISK, RAMDISK, c, bytes) <==>
              && Reference(configuration, RAMDISK).Ok? && Reference(configuration, RAMDISK).value.Some?
              && var found := FindImage(nodes, images, Reference(configuration, RAMDISK).value.value);
                 found.Ok? && InlinePayload(nodes[found.value], RAMDISK) == Ok(Payload(bytes, c))
    {
      TakesIff(nodes, images, configuration, RAMDISK, RAMDISK, c, bytes);
    }
  }

  lemma FpgaIff(nodes: seq<Record>, images: nat, configuration: Record)
    requires Linked(nodes) && images < |nodes|
    ensures TakesFpga(nodes, images, configuration) <==>
            && Reference(configuration, FPGA).Ok?
            && (Reference(configuration, FPGA).value.Some? ==>
                  FindImage(nodes, images, Reference(configuration, FPGA).value.value).Ok?)
  {
    hide NamesImage, Reference, FindImage, Linked, Lacks;
    ReferenceIff(configuration, FPGA, []);
    forall k: nat ensures NamesImage(nodes, images, configuration, FPGA, k) <==>
              && Reference(configuration, FPGA).Ok? && Reference(configuration, FPGA).value.Some?
              && FindImage(nodes, images, Reference(configuration, FPGA).value.value) == Ok(k)
    {
      ImageNamedIff(nodes, images, configuration, FPGA, k);
    }
  }

  lemma YieldsIff(nodes: seq<Record>, images: nat, configuration: Record, out: Outputs)
    requires Linked(nodes) && images < |nodes|
    ensures SelectedFrom(nodes, images, configuration, out.configuration) == Ok(out) <==>
            Yields(nodes, images, configuration, out)
  {
    hide Takes, Reference, FindImage, InlinePayload, Linked, RamdiskOf, TakesRamdisk, TakesFpga, Fdt.Parsed;
    assert NONE == [0x6e, 0x6f, 0x6e, 0x65];
    TakesIff(nodes, images, configuration, KERNEL, KERNEL, NONE, out.kernel);
    TakesIff(nodes, images, configuration, FDT, FLAT_DT, NONE, out.deviceTree);
    RamdiskIff(nodes, images, configuration, out.ramdisk);
    FpgaIff(nodes, images, configuration);
  }

  /** Exactly what is extracted: the outputs that the configuration asked for, or else
      the default or the first one, yields in an acceptable container. */
  ghost predicate Extracts(nodes: seq<Record>, images: nat, configurations: nat, asked: seq<byte>, out: Outputs)
    requires Linked(nodes) && AllInside(nodes) && images < |nodes| && configurations < |nodes|
  {
    && NamesConfiguration(nodes, configurations, asked, out.configuration) && Plain(out.configuration)
    && exists c: nat :: c < |nodes| && FirstOf(nodes, configurations, out.configuration, c)
                        && Yields(nodes, images, nodes[c], out)
  }

  lemma ChosenIff(nodes: seq<Record>, images: nat, configurations: nat, asked: seq<byte>, out: Outputs)
    requires Linked(nodes) && AllInside(nodes) && images < |nodes| && configurations < |nodes|
    ensures Chosen(nodes, images, configurations, asked) == Ok(out) <==>
            Extracts(nodes, images, configurations, asked, out)
  {
    hide Linked, ConfigurationName, NamesConfiguration, SafeName, Plain, FirstOf, Yields, Child, ReferencesOf, Selected;
    ConfigurationNameIff(nodes, configurations, asked, out.configuration);
    SafeIff(out.configuration);
    forall c: nat | c < |nodes|
      ensures Child(nodes, configurations, out.configuration) == Some(c) <==>
              FirstOf(nodes, configurations, out.configuration, c)
      ensures SelectedFrom(nodes, images, nodes[c], out.configuration) == Ok(out) <==>
              Yields(nodes, images, nodes[c], out)
    {
      ChildIff(nodes, configurations, out.configuration, c);
      YieldsIff(nodes, images, nodes[c], out);
    }
    var name := ConfigurationName(nodes, configurations, asked);
    if name.Ok? && Child(nodes, configurations, name.value).Some? {
      var refs := ReferencesOf(nodes[Child(nodes, configurations, name.value).value]);
      if refs.Ok? {
        SelectedKeepsName(nodes, images, refs.value, name.value);
      }
    }
  }

  lemma SelectedKeepsName(nodes: seq<Record>, images: nat, refs: References, name: seq<byte>)
    requires Linked(nodes) && images < |nodes|
    ensures var r := Selected(nodes, images, refs, name);
      r.Ok? ==> r.value.configuration == name
  {
    hide Linked, FindImage, InlinePayload, RamdiskOf, Fdt.Parsed;
  }

  /** Extraction gives exactly what the tree says, and only from a container whose trailer
      and hashes hold. */
  lemma ExtractedIff(lib: Libraries, artifact: seq<byte>, asked: seq<byte>, out: Outputs)
    ensures Extracted(lib, artifact, asked) == Ok(out) <==>
            && Validated(lib, artifact).Ok? && Fdt.Parsed(artifact).Ok? && Acceptable(lib, artifact)
            && var nodes := Fdt.Parsed(artifact).value.nodes;
            && nodes != [] && Linked(nodes) && AllInside(nodes)
            && Find(nodes, IMAGES_PATH).Some? && Find(nodes, CONFIGURATIONS_PATH).Some?
            && Extracts(nodes, Find(nodes, IMAGES_PATH).value, Find(nodes, CONFIGURATIONS_PATH).value, asked, out)
  {
    hide Validated, Fdt.Parsed, Find, Linked, AllInside, Extracts, Chosen, Compatible;
    if Validated(lib, artifact).Ok? {
      CompatibleIff(lib, artifact);
    }
    if Fdt.Parsed(artifact).Ok? {
      ParsedIsLinked(artifact);
      var nodes := Fdt.Parsed(artifact).value.nodes;
      var (images, configurations) := (Find(nodes, IMAGES_PATH), Find(nodes, CONFIGURATIONS_PATH));
      if images.Some? && configurations.Some? {
        ChosenIff(nodes, images.value, configurations.value, asked, out);
      }
    }
  }

  // Boot arguments -----------------------------------------------------------------------

  /** The boot arguments are the text of `/chosen`'s `bootargs`, and none if there is no
      such node, no such property, or only the empty text. */
  lemma BootargsIff(deviceTree: seq<byte>, t: seq<byte>)
    requires Fdt.Parsed(deviceTree).Ok?
    ensures var (nodes, chosen) := (Fdt.Parsed(deviceTree).value.nodes, ChosenBootargs(deviceTree));
      && nodes != [] && Linked(nodes)
      && var k := Find(nodes, [0x2f, 0x63, 0x68, 0x6f, 0x73, 0x65, 0x6e]);
      && (chosen == Ok(Some(t)) <==>
            k.Some? && HasText(nodes[k.value], [0x62, 0x6f, 0x6f, 0x74, 0x61, 0x72, 0x67, 0x73], t) && t != [])
      && (chosen == Ok(None) <==>
            || k.None? || Lacks(nodes[k.value], [0x62, 0x6f, 0x6f, 0x74, 0x61, 0x72, 0x67, 0x73])
            || HasText(nodes[k.value], [0x62, 0x6f, 0x6f, 0x74, 0x61, 0x72, 0x67, 0x73], []))
  {
    hide Fdt.Parsed, Find, Linked, AllInside, StringOf, HasText, Lacks;
    assert CHOSEN_PATH == [0x2f, 0x63, 0x68, 0x6f, 0x73, 0x65, 0x6e];
    assert BOOTARGS == [0x62, 0x6f, 0x6f, 0x74, 0x61, 0x72, 0x67, 0x73];
    ParsedIsLinked(deviceTree);
    var nodes := Fdt.Parsed(deviceTree).value.nodes;
    var k := Find(nodes, CHOSEN_PATH);
    if k.Some? {
      StringOfIff(nodes[k.value], BOOTARGS, t);
      StringOfIff(nodes[k.value], BOOTARGS, []);
    }
  }
}
