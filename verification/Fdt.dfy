/** The flattened-device-tree parser: nodes as objects linked in both directions,
    the loop that builds them, and what it accepts. */
module Fdt {
  import opened Bytes
  import opened FdtLinks
  import FdtPaths
  import opened FdtTokens
  import opened FdtTree
  import opened Text
  import opened Wrappers

  // What the loop returns --------------------------------------------------------

  /** The loop from a position on, when it has built `m`. */
  function ParseFrom(block: seq<byte>, strings: seq<byte>, position: nat, m: Machine): Result<seq<Record>, FdtError>
    requires StackInside(m)
    decreases |block| - position
  {
    if position + 4 > |block| then Err(Incomplete)
    else
      var lexeme :- ReadToken(block, strings, position, m.stack != []);
      if lexeme.token == Finish then
        if m.stack != [] then Err(UnclosedNodes) else if m.nodes == [] then Err(Incomplete) else Ok(m.nodes)
      else
        var next :- Step(m, lexeme.token);
        ParseFrom(block, strings, lexeme.next, next)
  }

  lemma InsideMatters(block: seq<byte>, strings: seq<byte>, position: nat, inside: bool)
    requires position + 4 <= |block|
    ensures var r := ReadToken(block, strings, position, true);
      ReadToken(block, strings, position, inside) == r || (!inside && (r.Ok? ==> r.value.token.Prop?)
        && ReadToken(block, strings, position, inside).Err?)
  {
  }

  /** The loop succeeds exactly when the tokens up to the first FDT_END can be read and
      build a root with every node closed, and then returns what they build. */
  lemma {:induction false} ParseIff(block: seq<byte>, strings: seq<byte>, position: nat, m: Machine)
    requires StackInside(m)
    ensures var (r, ts) := (ParseFrom(block, strings, position, m), Lex(block, strings, position));
      && (r.Ok? <==> ts.Ok? && Run(m, ts.value).Ok? && Run(m, ts.value).value.stack == []
                     && Run(m, ts.value).value.nodes != [])
      && (r.Ok? ==> r.value == Run(m, ts.value).value.nodes)
    decreases |block| - position
  {
    if position + 4 <= |block| {
      InsideMatters(block, strings, position, m.stack != []);
      var first := ReadToken(block, strings, position, true);
      if first.Ok? && first.value.token != Finish {
        if Step(m, first.value.token).Ok? {
          ParseIff(block, strings, first.value.next, Step(m, first.value.token).value);
        }
        var rest := Lex(block, strings, first.value.next);
        if rest.Ok? {
          assert ([first.value.token] + rest.value)[1..] == rest.value;
        }
      }
    }
  }

  /** Whatever is accepted is one balanced root, with padding around it, and the
      result is exactly that tree. */
  lemma AcceptedIsDocument(block: seq<byte>, strings: seq<byte>, position: nat)
    returns (before: nat, t: Tree, after: nat)
    requires ParseFrom(block, strings, position, EMPTY).Ok?
    ensures Lex(block, strings, position) == Ok(Document(before, t, after))
    ensures ParseFrom(block, strings, position, EMPTY) == Ok(Layout(t, 0, None))
  {
    ParseIff(block, strings, position, EMPTY);
    before, t, after := BuiltIsDocument(Lex(block, strings, position).value);
    DocumentIsBuilt(before, t, after);
  }

  /** Every tree, written with any padding between its tokens and any layout of the
      strings block, is read back as exactly that tree. */
  lemma WrittenTreeParses(block: seq<byte>, strings: seq<byte>, position: nat, before: nat, t: Tree, after: nat,
                          offsets: seq<nat>)
    requires position % 4 == 0 && AllWritable(Document(before, t, after), strings, offsets)
    requires At(block, position, BlockBytes(Document(before, t, after), offsets))
    ensures ParseFrom(block, strings, position, EMPTY) == Ok(Layout(t, 0, None))
  {
    BlockReadBack(block, strings, position, Document(before, t, after), offsets);
    DocumentIsBuilt(before, t, after);
    ParseIff(block, strings, position, EMPTY);
  }

  // Nodes as objects ---------------------------------------------------------------

  class FDTNode {
    const name: seq<byte>
    const parent: FDTNode?
    var properties: seq<Property>
    var children: seq<FDTNode>

    constructor (name: seq<byte>, parent: FDTNode?)
      ensures this.name == name && this.parent == parent && properties == [] && children == []
    {
      this.name := name;
      this.parent := parent;
      properties := [];
      children := [];
    }
  }

  ghost predicate MirrorsAt(objects: seq<FDTNode>, nodes: seq<Record>, k: nat)
    requires k < |objects| == |nodes|
    reads objects
  {
    var (o, r) := (objects[k], nodes[k]);
    && o.name == r.name && o.properties == r.properties
    && (match r.parent
        case None => o.parent == null
        case Some(p) => p < |objects| && o.parent == objects[p])
    && |o.children| == |r.children|
    && forall i :: 0 <= i < |r.children| ==> r.children[i] < |objects| && o.children[i] == objects[r.children[i]]
  }

  /** The objects, in order of creation, are the records: same names and properties,
      and every reference to an object is the number of its record. */
  ghost predicate Mirrors(objects: seq<FDTNode>, nodes: seq<Record>)
    reads objects
  {
    && |objects| == |nodes|
    && (forall i, j :: 0 <= i < j < |objects| ==> objects[i] != objects[j])
    && forall k :: 0 <= k < |objects| ==> MirrorsAt(objects, nodes, k)
  }

  ghost predicate StackMirrors(stack: seq<FDTNode>, objects: seq<FDTNode>, m: Machine) {
    && |stack| == |m.stack|
    && forall i :: 0 <= i < |stack| ==> m.stack[i] < |objects| && stack[i] == objects[m.stack[i]]
  }

  /** The objects mirror a machine whose links agree and whose stack is the chain of
      parents from the root to the open node. */
  ghost predicate InProgress(root: FDTNode?, stack: seq<FDTNode>, objects: seq<FDTNode>, m: Machine)
    reads objects
  {
    && Consistent(m) && Mirrors(objects, m.nodes) && StackMirrors(stack, objects, m)
    && root == if objects == [] then null else objects[0]
  }

  lemma StepIfConsistent(m: Machine, t: Token)
    requires Consistent(m)
    ensures Step(m, t).Ok? ==> Consistent(Step(m, t).value)
  {
    if Step(m, t).Ok? {
      StepKeepsLinks(m, t);
    }
  }

  /** FDT_BEGIN_NODE: a new node, listed by the open node, or the root. */
  method BeginNode(name: seq<byte>, root: FDTNode?, stack: seq<FDTNode>, ghost objects: seq<FDTNode>, ghost m: Machine)
    returns (r: Result<FDTNode, FdtError>)
    requires InProgress(root, stack, objects, m)
    modifies objects
    ensures match r
      case Err(error) => Step(m, Begin(name)) == Err(error)
      case Ok(node) =>
        && fresh(node) && Step(m, Begin(name)).Ok?
        && InProgress(if root == null then node else root, stack + [node], objects + [node], Step(m, Begin(name)).value)
  {
    StepIfConsistent(m, Begin(name));
    hide Consistent, Linked, Chain;
    var parent := if stack == [] then null else stack[|stack| - 1];
    var node := new FDTNode(name, parent);
    label before:
    if parent != null {
      parent.children := parent.children + [node];
    } else if root != null {
      return Err(MoreThanOneRoot);
    }
    ghost var (next, all) := (Step(m, Begin(name)).value, objects + [node]);
    forall k | 0 <= k < |all| ensures MirrorsAt(all, next.nodes, k) {
      if k < |objects| {
        assert old@before(MirrorsAt(objects, m.nodes, k));
      }
    }
    return Ok(node);
  }

  /** FDT_PROP: the open node's dictionary gets the value. */
  method SetProperty(node: FDTNode, name: seq<byte>, value: seq<byte>, root: FDTNode?, stack: seq<FDTNode>,
                     ghost objects: seq<FDTNode>, ghost m: Machine)
    requires InProgress(root, stack, objects, m) && stack != [] && node == stack[|stack| - 1]
    modifies objects
    ensures Step(m, Prop(name, value)).Ok?
    ensures InProgress(root, stack, objects, Step(m, Prop(name, value)).value)
  {
    StepIfConsistent(m, Prop(name, value));
    hide Consistent;
    label before:
    node.properties := Assign(node.properties, name, value);
    ghost var next := Step(m, Prop(name, value)).value;
    forall k | 0 <= k < |objects| ensures MirrorsAt(objects, next.nodes, k) {
      assert old@before(MirrorsAt(objects, m.nodes, k));
    }
  }

  lemma NothingYet()
    ensures InProgress(null, [], [], EMPTY)
  {
  }

  /** The program's variables and the machine agree. */
  lemma ProgressSoFar(root: FDTNode?, stack: seq<FDTNode>, objects: seq<FDTNode>, m: Machine)
    requires InProgress(root, stack, objects, m)
    ensures StackInside(m) && Mirrors(objects, m.nodes) && (stack == [] <==> m.stack == [])
    ensures if m.nodes == [] then root == null else objects != [] && root == objects[0]
  {
  }

  /** FDT_END_NODE: the parent is the open node again. */
  lemma NodeEnds(root: FDTNode?, stack: seq<FDTNode>, objects: seq<FDTNode>, m: Machine)
    requires InProgress(root, stack, objects, m) && stack != []
    ensures StackInside(m) && Step(m, End).Ok?
    ensures InProgress(root, stack[..|stack| - 1], objects, Step(m, End).value)
  {
    StepIfConsistent(m, End);
  }

  /** The parser's loop. At every pass the stack is the chain of parents of the open
      node, links agree in both directions, and the position grows. */
  method ParseStructure(data: seq<byte>, strings: seq<byte>, start: nat, limit: nat)
    returns (result: Result<FDTNode, FdtError>, ghost objects: seq<FDTNode>)
    requires start <= limit <= |data|
    ensures match ParseFrom(data[..limit], strings, start, EMPTY)
      case Err(error) => result == Err(error)
      case Ok(nodes) => nodes != [] && Mirrors(objects, nodes) && result == Ok(objects[0]) && fresh(objects)
  {
    hide InProgress, Mirrors, ReadToken;
    var block := data[..limit];
    var position := start;
    var stack: seq<FDTNode> := [];
    var root: FDTNode? := null;
    objects := [];
    ghost var m := EMPTY;
    NothingYet();
    while position + 4 <= limit
      invariant InProgress(root, stack, objects, m) && StackInside(m) && fresh(objects)
      invariant ParseFrom(block, strings, position, m) == ParseFrom(block, strings, start, EMPTY)
      decreases |block| - position
    {
      ProgressSoFar(root, stack, objects, m);
      var lexeme := ReadToken(block, strings, position, stack != []);
      if lexeme.Err? {
        return Err(lexeme.error), objects;
      }
      position := lexeme.value.next;
      match lexeme.value.token {
        case Begin(name) =>
          var node := BeginNode(name, root, stack, objects, m);
          if node.Err? {
            return Err(node.error), objects;
          }
          root := if root == null then node.value else root;
          stack := stack + [node.value];
          objects := objects + [node.value];
        case End =>
          if stack == [] {
            return Err(UnbalancedEnd), objects;
          }
          NodeEnds(root, stack, objects, m);
          stack := stack[..|stack| - 1];
        case Prop(name, value) =>
          SetProperty(stack[|stack| - 1], name, value, root, stack, objects, m);
        case Nop =>
        case Finish =>
          if stack != [] {
            return Err(UnclosedNodes), objects;
          }
          if root == null {
            return Err(Incomplete), objects;
          }
          return Ok(root), objects;
      }
      m := Step(m, lexeme.value.token).value;
      ProgressSoFar(root, stack, objects, m);
    }
    return Err(Incomplete), objects;
  }

  /** Links between objects agree in both directions, and only the root has no parent. */
  ghost predicate ObjectsAgree(objects: seq<FDTNode>)
    reads objects
  {
    && (forall o, c :: o in objects && c in o.children ==> c in objects && c.parent == o)
    && (forall o :: o in objects && o.parent != null ==> o.parent in objects && o in o.parent.children)
    && (forall o :: o in objects ==> (o.parent == null <==> o == objects[0]))
  }

  lemma MirroredLinksAgree(objects: seq<FDTNode>, nodes: seq<Record>)
    requires Mirrors(objects, nodes) && Linked(nodes)
    ensures ObjectsAgree(objects)
  {
    forall o | o in objects
      ensures forall c :: c in o.children ==> c in objects && c.parent == o
      ensures o.parent != null ==> o.parent in objects && o in o.parent.children
      ensures o.parent == null <==> o == objects[0]
    {
      var k :| 0 <= k < |objects| && objects[k] == o;
      assert MirrorsAt(objects, nodes, k) && ParentLink(nodes, k) && ChildLinks(nodes, k);
      forall c | c in o.children ensures c in objects && c.parent == o {
        var i :| 0 <= i < |o.children| && o.children[i] == c;
        assert MirrorsAt(objects, nodes, nodes[k].children[i]);
      }
      if k > 0 {
        var p := nodes[k].parent.value;
        assert MirrorsAt(objects, nodes, p);
        var i :| 0 <= i < |nodes[p].children| && nodes[p].children[i] == k;
        assert objects[p].children[i] == o;
      }
    }
  }

  // Finding a node ------------------------------------------------------------------

  function ChildNamed(children: seq<FDTNode>, name: seq<byte>): FDTNode? {
    if children == [] then null
    else if children[0].name == name then children[0]
    else ChildNamed(children[1..], name)
  }

  lemma {:induction false} ChildrenMirrored(children: seq<FDTNode>, numbers: seq<nat>, name: seq<byte>,
                                            objects: seq<FDTNode>, nodes: seq<Record>)
    requires Mirrors(objects, nodes) && |children| == |numbers|
    requires forall i :: 0 <= i < |numbers| ==> numbers[i] < |objects| && children[i] == objects[numbers[i]]
    ensures ChildNamed(children, name) ==
            match FdtPaths.FirstNamed(nodes, numbers, name) { case None => null case Some(c) => objects[c] }
    decreases |children|
  {
    if children != [] {
      assert MirrorsAt(objects, nodes, numbers[0]);
      ChildrenMirrored(children[1..], numbers[1..], name, objects, nodes);
    }
  }

  /** `find` follows child objects; what it finds is the record that the path names. */
  method Find(root: FDTNode, path: seq<byte>, ghost objects: seq<FDTNode>, ghost nodes: seq<Record>)
    returns (found: FDTNode?)
    requires nodes != [] && Linked(nodes) && Mirrors(objects, nodes) && root == objects[0]
    ensures found == match FdtPaths.Find(nodes, path) { case None => null case Some(k) => objects[k] }
  {
    if path == [SLASH] {
      return root;
    }
    var names := FdtPaths.NonEmpty(Split(path, SLASH));
    var current := root;
    ghost var k: nat := 0;
    var i := 0;
    while i < |names|
      invariant 0 <= i <= |names| && k < |objects| && current == objects[k]
      invariant FdtPaths.Descend(nodes, k, names[i..]) == FdtPaths.Descend(nodes, 0, names)
    {
      assert MirrorsAt(objects, nodes, k) && ChildLinks(nodes, k);
      ChildrenMirrored(current.children, nodes[k].children, names[i], objects, nodes);
      var child := ChildNamed(current.children, names[i]);
      if child == null {
        return null;
      }
      current := child;
      k := FdtPaths.Child(nodes, k, names[i]).value;
      assert names[i..][1..] == names[i + 1..];
      i := i + 1;
    }
    return current;
  }

  // Paths and walks of objects --------------------------------------------------------

  /** `path` climbs the parent objects; it is the path of the node's record. */
  method Path(node: FDTNode, ghost k: nat, ghost objects: seq<FDTNode>, ghost nodes: seq<Record>)
    returns (path: seq<byte>)
    requires Linked(nodes) && Mirrors(objects, nodes) && k < |nodes| && node == objects[k]
    ensures path == FdtPaths.Path(nodes, k)
    decreases k
  {
    hide FdtPaths.WithoutTrailingSlashes, ChildLinks;
    assert MirrorsAt(objects, nodes, k) && ParentLink(nodes, k);
    if node.parent == null {
      return [SLASH];
    }
    var parent := Path(node.parent, nodes[k].parent.value, objects, nodes);
    return FdtPaths.WithoutTrailingSlashes(parent) + [SLASH] + node.name;
  }

  /** The objects with these numbers. */
  ghost predicate Shows(visited: seq<FDTNode>, numbers: seq<nat>, objects: seq<FDTNode>) {
    && |visited| == |numbers|
    && forall i :: 0 <= i < |visited| ==> numbers[i] < |objects| && visited[i] == objects[numbers[i]]
  }

  /** `walk` follows child objects; it visits the objects of the records that the
      record walk visits, in its order. */
  method WalkFrom(node: FDTNode, ghost k: nat, ghost objects: seq<FDTNode>, ghost nodes: seq<Record>)
    returns (visited: seq<FDTNode>)
    requires Descending(nodes) && Mirrors(objects, nodes) && k < |nodes| && node == objects[k]
    ensures Shows(visited, Walk(nodes, k), objects)
    decreases |nodes| - k
  {
    hide Walk, Walks, Mirrors, MirrorsAt;
    ChildrenShow(objects, nodes, k);
    visited := [node];
    ghost var seen := [k];
    ghost var numbers := nodes[k].children;
    var i := 0;
    WalkParts(nodes, k);
    assert numbers[0..] == numbers;
    while i < |node.children|
      invariant 0 <= i <= |node.children| == |numbers|
      invariant Shows(visited, seen, objects) && seen + Walks(nodes, k, numbers[i..]) == Walk(nodes, k)
    {
      var more := WalkFrom(node.children[i], numbers[i], objects, nodes);
      WalksNext(nodes, k, numbers, i);
      visited, seen := visited + more, seen + Walk(nodes, numbers[i]);
      i := i + 1;
    }
    WalksEnd(nodes, k, numbers[i..]);
    assert seen + [] == seen;
  }

  lemma ChildrenShow(objects: seq<FDTNode>, nodes: seq<Record>, k: nat)
    requires Descending(nodes) && Mirrors(objects, nodes) && k < |nodes|
    ensures After(nodes[k].children, k, |nodes|) && |nodes| == |objects|
    ensures Shows(objects[k].children, nodes[k].children, objects)
  {
    assert MirrorsAt(objects, nodes, k);
  }

  lemma WalkParts(nodes: seq<Record>, k: nat)
    requires Descending(nodes) && k < |nodes|
    ensures Walk(nodes, k) == [k] + Walks(nodes, k, nodes[k].children)
  {
  }

  lemma WalksNext(nodes: seq<Record>, k: nat, children: seq<nat>, i: nat)
    requires Descending(nodes) && k < |nodes| && After(children, k, |nodes|) && i < |children|
    ensures Walks(nodes, k, children[i..]) == Walk(nodes, children[i]) + Walks(nodes, k, children[i + 1..])
  {
    hide Walk;
    assert children[i..][1..] == children[i + 1..];
  }

  lemma WalksEnd(nodes: seq<Record>, k: nat, children: seq<nat>)
    requires Descending(nodes) && k < |nodes| && children == []
    ensures Walks(nodes, k, children) == []
  {
  }

  // The whole artifact --------------------------------------------------------------

  const MAGIC: nat := 0xd00d_feed

  datatype Header = Header(
    totalSize: nat, structureOffset: nat, stringsOffset: nat, reserveMapOffset: nat, version: nat,
    lastCompatibleVersion: nat, bootCpuId: nat, stringsSize: nat, structureSize: nat)

  function HeaderOf(data: seq<byte>): Header
    requires |data| >= 40
  {
    Header(ReadBe32(data, 4), ReadBe32(data, 8), ReadBe32(data, 12), ReadBe32(data, 16), ReadBe32(data, 20),
           ReadBe32(data, 24), ReadBe32(data, 28), ReadBe32(data, 32), ReadBe32(data, 36))
  }

  /** The checks before the structure is read. */
  function CheckHeader(data: seq<byte>): (r: Option<FdtError>)
    ensures r.None? ==> |data| >= 40 && HeaderOf(data).totalSize <= |data|
  {
    if |data| < 40 then Some(ShortHeader)
    else if ReadBe32(data, 0) != MAGIC then Some(BadMagic)
    else
      var h := HeaderOf(data);
      if h.totalSize > |data| then Some(BadTotalSize)
      else if h.structureOffset + h.structureSize > h.totalSize then Some(BlockOutOfBounds)
      else if h.stringsOffset + h.stringsSize > h.totalSize then Some(BlockOutOfBounds)
      else None
  }

  function StringsOf(data: seq<byte>): seq<byte>
    requires CheckHeader(data).None?
  {
    var h := HeaderOf(data);
    data[h.stringsOffset..h.stringsOffset + h.stringsSize]
  }

  /** The data up to the end of the structure block. */
  function BlockOf(data: seq<byte>): seq<byte>
    requires CheckHeader(data).None?
  {
    var h := HeaderOf(data);
    data[..h.structureOffset + h.structureSize]
  }

  /** A parsed artifact as a value: the tree's records, and what follows the tree. */
  datatype Flat = Flat(header: Header, trailer: seq<byte>, nodes: seq<Record>)

  function Parsed(data: seq<byte>): Result<Flat, FdtError> {
    match CheckHeader(data)
    case Some(error) => Err(error)
    case None =>
      var h := HeaderOf(data);
      var nodes :- ParseFrom(BlockOf(data), StringsOf(data), h.structureOffset, EMPTY);
      Ok(Flat(h, data[h.totalSize..], nodes))
  }

  datatype FlattenedDeviceTree = FlattenedDeviceTree(header: Header, trailer: seq<byte>, root: FDTNode)

  method Load(artifact: seq<byte>) returns (result: Result<FlattenedDeviceTree, FdtError>, ghost objects: seq<FDTNode>)
    ensures match Parsed(artifact)
      case Err(error) => result == Err(error)
      case Ok(flat) =>
        && flat.nodes != [] && Mirrors(objects, flat.nodes) && fresh(objects)
        && result == Ok(FlattenedDeviceTree(flat.header, flat.trailer, objects[0]))
  {
    objects := [];
    var check := CheckHeader(artifact);
    if check.Some? {
      return Err(check.value), objects;
    }
    var h := HeaderOf(artifact);
    var (data, trailer) := (artifact[..h.totalSize], artifact[h.totalSize..]);
    var strings := data[h.stringsOffset..h.stringsOffset + h.stringsSize];
    var limit := h.structureOffset + h.structureSize;
    assert strings == StringsOf(artifact) && data[..limit] == BlockOf(artifact);
    var root;
    root, objects := ParseStructure(data, strings, h.structureOffset, limit);
    match root
    case Err(error) => return Err(error), objects;
    case Ok(node) => return Ok(FlattenedDeviceTree(h, trailer, node)), objects;
  }

  /** Every accepted artifact: its tokens are one balanced root, and its nodes are
      that tree, linked in both directions, walked once each in order of creation. */
  lemma AcceptedMeaning(data: seq<byte>) returns (before: nat, t: Tree, after: nat)
    requires Parsed(data).Ok?
    ensures CheckHeader(data).None?
    ensures Lex(BlockOf(data), StringsOf(data), HeaderOf(data).structureOffset) == Ok(Document(before, t, after))
    ensures var nodes := Parsed(data).value.nodes;
      && nodes == Layout(t, 0, None) && Linked(nodes) && Descending(nodes)
      && ValueAt(nodes, 0) == Meaning(t) && Walk(nodes, 0) == Numbers(0, |nodes|)
  {
    before, t, after := AcceptedIsDocument(BlockOf(data), StringsOf(data), HeaderOf(data).structureOffset);
    LayoutReadsBack(t);
  }

  /** Every tree round-trips: an artifact whose structure block holds its layout, with
      any padding between tokens, any layout of the strings block and anything else
      around them, is parsed back to exactly that tree. */
  lemma TreeRoundTrip(data: seq<byte>, before: nat, t: Tree, after: nat, offsets: seq<nat>)
    requires CheckHeader(data).None? && HeaderOf(data).structureOffset % 4 == 0
    requires AllWritable(Document(before, t, after), StringsOf(data), offsets)
    requires At(BlockOf(data), HeaderOf(data).structureOffset, BlockBytes(Document(before, t, after), offsets))
    ensures Parsed(data).Ok?
    ensures var nodes := Parsed(data).value.nodes;
      && nodes == Layout(t, 0, None) && Descending(nodes) && ValueAt(nodes, 0) == Meaning(t)
      && (DistinctTree(t) ==> ValueAt(nodes, 0) == Exact(t))
  {
    if DistinctTree(t) {
      MeaningIsExact(t);
    }
    WrittenTreeParses(BlockOf(data), StringsOf(data), HeaderOf(data).structureOffset, before, t, after, offsets);
    LayoutReadsBack(t);
  }

  /** Exactly the headers that are accepted: forty bytes, the magic number, and a total
      size within the artifact that holds both blocks. */
  lemma HeaderAcceptedIff(data: seq<byte>)
    ensures CheckHeader(data).None? <==>
            && |data| >= 40 && data[..4] == [0xd0, 0x0d, 0xfe, 0xed]
            && ReadBe32(data, 4) <= |data|
            && ReadBe32(data, 8) + ReadBe32(data, 36) <= ReadBe32(data, 4)
            && ReadBe32(data, 12) + ReadBe32(data, 32) <= ReadBe32(data, 4)
  {
    if |data| >= 40 {
      assert data[..4] == [data[0], data[1], data[2], data[3]];
      MagicBytes(data[0], data[1], data[2], data[3]);
    }
  }

  lemma MagicBytes(a: byte, b: byte, c: byte, d: byte)
    ensures ((a as nat * 0x100 + b) * 0x1_0000 + (c as nat * 0x100 + d)) == 0xd00d_feed <==>
            a == 0xd0 && b == 0x0d && c == 0xfe && d == 0xed
  {
  }

  /** The same bytes in front, and the same fields. */
  lemma HeaderOfLonger(data: seq<byte>, more: seq<byte>)
    requires |data| >= 40
    ensures ReadBe32(data + more, 0) == ReadBe32(data, 0) && HeaderOf(data + more) == HeaderOf(data)
  {
    var all := data + more;
    assert forall i :: 0 <= i < |data| ==> all[i] == data[i];
  }

  /** Whatever follows an accepted artifact, it is accepted with the same header and the
      same tree, and what follows is kept at the end of the trailer. */
  lemma TrailerAppended(data: seq<byte>, more: seq<byte>)
    requires Parsed(data).Ok?
    ensures var (flat, r) := (Parsed(data).value, Parsed(data + more));
      r.Ok? && r.value == Flat(flat.header, flat.trailer + more, flat.nodes)
  {
    hide ReadBe32, ParseFrom, HeaderOf;
    HeaderOfLonger(data, more);
    var (all, h) := (data + more, HeaderOf(data));
    assert BlockOf(all) == BlockOf(data) && StringsOf(all) == StringsOf(data);
    assert all[h.totalSize..] == data[h.totalSize..] + more;
  }

  lemma {:induction false} SameNul(a: seq<byte>, b: seq<byte>, from: nat)
    requires |a| == |b| && from <= |a| && a[from..] == b[from..]
    ensures FindNul(a, from) == FindNul(b, from)
    decreases |a| - from
  {
    if from < |a| {
      assert a[from] == a[from..][0] == b[from];
      assert a[from + 1..] == a[from..][1..] && b[from + 1..] == b[from..][1..];
      SameNul(a, b, from + 1);
    }
  }

  lemma SameRest(a: seq<byte>, b: seq<byte>, from: nat, at: nat)
    requires |a| == |b| && from <= at <= |a| && a[from..] == b[from..]
    ensures a[at..] == b[at..] && forall end :: at <= end <= |a| ==> a[at..end] == b[at..end]
    ensures at + 4 <= |a| ==> ReadBe32(a, at) == ReadBe32(b, at)
  {
    assert forall k :: from <= k < |a| ==> a[k] == a[from..][k - from] == b[k];
  }

  lemma SameToken(a: seq<byte>, b: seq<byte>, strings: seq<byte>, at: nat, inside: bool)
    requires |a| == |b| && at + 4 <= |a| && a[at..] == b[at..]
    ensures ReadToken(a, strings, at, inside) == ReadToken(b, strings, at, inside)
  {
    hide ReadBe32, Align4, Utf8;
    SameRest(a, b, at, at);
    SameRest(a, b, at, at + 4);
    SameNul(a, b, at + 4);
    if at + 12 <= |a| {
      SameRest(a, b, at, at + 8);
      SameRest(a, b, at, at + 12);
    }
  }

  lemma {:induction false} SameParse(a: seq<byte>, b: seq<byte>, strings: seq<byte>, at: nat, m: Machine)
    requires StackInside(m) && |a| == |b| && (at <= |a| ==> a[at..] == b[at..])
    ensures ParseFrom(a, strings, at, m) == ParseFrom(b, strings, at, m)
    decreases |a| - at
  {
    hide ReadToken;
    if at + 4 <= |a| {
      SameToken(a, b, strings, at, m.stack != []);
      var first := ReadToken(a, strings, at, m.stack != []);
      if first.Ok? && first.value.token != Finish && Step(m, first.value.token).Ok? {
        if first.value.next <= |a| {
          SameRest(a, b, at, first.value.next);
        }
        SameParse(a, b, strings, first.value.next, Step(m, first.value.token).value);
      }
    }
  }

  /** Nothing but the header and the two blocks it names decides what is parsed: bytes
      between and after them are free. */
  lemma OnlyBlocksMatter(data: seq<byte>, other: seq<byte>)
    requires CheckHeader(data).None? && |other| == |data| && other[..40] == data[..40]
    requires var h := HeaderOf(data);
      && other[h.structureOffset..h.structureOffset + h.structureSize]
         == data[h.structureOffset..h.structureOffset + h.structureSize]
      && other[h.stringsOffset..h.stringsOffset + h.stringsSize]
         == data[h.stringsOffset..h.stringsOffset + h.stringsSize]
    ensures CheckHeader(other).None? && Parsed(other).Ok? == Parsed(data).Ok?
    ensures Parsed(data).Ok? ==>
              && Parsed(other).value.header == Parsed(data).value.header
              && Parsed(other).value.nodes == Parsed(data).value.nodes
  {
    hide ParseFrom, ReadBe32;
    var (start, h) := (data[..40], HeaderOf(data));
    assert data == start + data[40..] && other == start + other[40..];
    HeaderOfLonger(start, data[40..]);
    HeaderOfLonger(start, other[40..]);
    var (a, b) := (BlockOf(data), BlockOf(other));
    assert StringsOf(data) == StringsOf(other);
    assert a[h.structureOffset..] == b[h.structureOffset..];
    SameParse(a, b, StringsOf(data), h.structureOffset, EMPTY);
  }
}
