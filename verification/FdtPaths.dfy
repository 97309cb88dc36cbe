/** Paths in a device tree: a node's path, and finding a node by path. */
module FdtPaths {
  import opened Bytes
  import opened FdtLinks
  import opened FdtTree
  import opened Text
  import opened Wrappers

  // The operations -------------------------------------------------------------

  function WithoutTrailingSlashes(s: seq<byte>): seq<byte> {
    if s != [] && s[|s| - 1] == SLASH then WithoutTrailingSlashes(s[..|s| - 1]) else s
  }

  /** `path`: the parent's path and the name, with one slash between them. */
  function Path(nodes: seq<Record>, k: nat): seq<byte>
    requires Linked(nodes) && k < |nodes|
    decreases k
  {
    assert ParentLink(nodes, k);
    match nodes[k].parent
    case None => [SLASH]
    case Some(p) => WithoutTrailingSlashes(Path(nodes, p)) + [SLASH] + nodes[k].name
  }

  /** `child`: the first of these children with a name. */
  function FirstNamed(nodes: seq<Record>, children: seq<nat>, name: seq<byte>): (r: Option<nat>)
    requires forall i :: 0 <= i < |children| ==> children[i] < |nodes|
    ensures r.Some? ==> r.value < |nodes|
    decreases |children|
  {
    if children == [] then None
    else if nodes[children[0]].name == name then Some(children[0])
    else FirstNamed(nodes, children[1..], name)
  }

  function Child(nodes: seq<Record>, k: nat, name: seq<byte>): (r: Option<nat>)
    requires Linked(nodes) && k < |nodes|
    ensures r.Some? ==> r.value < |nodes|
  {
    assert ChildLinks(nodes, k);
    FirstNamed(nodes, nodes[k].children, name)
  }

  /** From a node down through children of the given names. */
  function Descend(nodes: seq<Record>, k: nat, names: seq<seq<byte>>): (r: Option<nat>)
    requires Linked(nodes) && k < |nodes|
    ensures r.Some? ==> r.value < |nodes|
    decreases |names|
  {
    if names == [] then Some(k)
    else
      match Child(nodes, k, names[0])
      case None => None
      case Some(c) => Descend(nodes, c, names[1..])
  }

  function NonEmpty(parts: seq<seq<byte>>): (r: seq<seq<byte>>)
    ensures forall p :: p in r <==> p in parts && p != []
  {
    if parts == [] then []
    else if parts[0] == [] then NonEmpty(parts[1..])
    else [parts[0]] + NonEmpty(parts[1..])
  }

  /** `find` */
  function Find(nodes: seq<Record>, path: seq<byte>): (r: Option<nat>)
    requires Linked(nodes) && nodes != []
    ensures r.Some? ==> r.value < |nodes|
  {
    if path == [SLASH] then Some(0) else Descend(nodes, 0, NonEmpty(Split(path, SLASH)))
  }

  // Names that make paths invertible ---------------------------------------------

  predicate PlainName(name: seq<byte>) {
    name != [] && SLASH !in name
  }

  ghost predicate SiblingsDiffer(nodes: seq<Record>, k: nat)
    requires Linked(nodes) && k < |nodes|
  {
    assert ChildLinks(nodes, k);
    forall i, j :: 0 <= i < j < |nodes[k].children| ==>
      nodes[nodes[k].children[i]].name != nodes[nodes[k].children[j]].name
  }

  /** Every name but the root's is nonempty and slash-free, and unique among siblings. */
  ghost predicate PlainNames(nodes: seq<Record>)
    requires Linked(nodes)
  {
    && (forall k :: 0 < k < |nodes| ==> PlainName(nodes[k].name))
    && (forall k :: 0 <= k < |nodes| ==> SiblingsDiffer(nodes, k))
  }

  // Descending -------------------------------------------------------------------

  lemma {:induction false} FirstNamedIs(nodes: seq<Record>, children: seq<nat>, name: seq<byte>)
    requires forall i :: 0 <= i < |children| ==> children[i] < |nodes|
    ensures var r := FirstNamed(nodes, children, name);
      if r.None? then forall i :: 0 <= i < |children| ==> nodes[children[i]].name != name
      else exists i :: 0 <= i < |children| && children[i] == r.value && nodes[children[i]].name == name
             && forall j :: 0 <= j < i ==> nodes[children[j]].name != name
    decreases |children|
  {
    if children != [] && nodes[children[0]].name != name {
      var rest := children[1..];
      FirstNamedIs(nodes, rest, name);
      var r := FirstNamed(nodes, rest, name);
      if r.Some? {
        var i :| 0 <= i < |rest| && rest[i] == r.value && nodes[rest[i]].name == name
                 && forall j :: 0 <= j < i ==> nodes[rest[j]].name != name;
        assert children[i + 1] == rest[i];
        forall j | 0 <= j < i + 1 ensures nodes[children[j]].name != name {
          assert j > 0 ==> children[j] == rest[j - 1];
        }
      } else {
        forall i | 0 <= i < |children| ensures nodes[children[i]].name != name {
          assert i > 0 ==> children[i] == rest[i - 1];
        }
      }
    }
  }

  /** Where children of one node have different names, the name of each finds it. */
  lemma ChildOfParent(nodes: seq<Record>, p: nat, c: nat)
    requires Linked(nodes) && p < |nodes| && c in nodes[p].children && SiblingsDiffer(nodes, p)
    ensures c < |nodes| && Child(nodes, p, nodes[c].name) == Some(c)
  {
    assert ChildLinks(nodes, p);
    var at :| 0 <= at < |nodes[p].children| && nodes[p].children[at] == c;
    FirstNamedIs(nodes, nodes[p].children, nodes[c].name);
  }

  lemma {:induction false} DescendFurther(nodes: seq<Record>, k: nat, names: seq<seq<byte>>, name: seq<byte>)
    requires Linked(nodes) && k < |nodes|
    ensures Descend(nodes, k, names + [name]) ==
            match Descend(nodes, k, names) { case None => None case Some(q) => Child(nodes, q, name) }
    decreases |names|
  {
    if names == [] {
      assert [name][1..] == [];
    } else {
      assert (names + [name])[1..] == names[1..] + [name];
      var c := Child(nodes, k, names[0]);
      if c.Some? {
        DescendFurther(nodes, c.value, names[1..], name);
      }
    }
  }

  // Names along a path ------------------------------------------------------------

  lemma {:induction false} NonEmptyJoined(a: seq<seq<byte>>, name: seq<byte>)
    requires name != []
    ensures NonEmpty(a + [name]) == NonEmpty(a) + [name]
    decreases |a|
  {
    if a == [] {
      assert [name][1..] == [];
    } else {
      assert (a + [name])[1..] == a[1..] + [name];
      NonEmptyJoined(a[1..], name);
    }
  }

  // Finding is the inverse of the path ---------------------------------------------

  /** The names from below the root down to a node. */
  function NamesTo(nodes: seq<Record>, k: nat): seq<seq<byte>>
    requires Linked(nodes) && k < |nodes|
    decreases k
  {
    assert ParentLink(nodes, k);
    if k == 0 then [] else NamesTo(nodes, nodes[k].parent.value) + [nodes[k].name]
  }

  /** The path without the root's lone slash. */
  function Stem(nodes: seq<Record>, k: nat): seq<byte>
    requires Linked(nodes) && k < |nodes|
  {
    if k == 0 then [] else Path(nodes, k)
  }

  lemma PlainStep(stem: seq<byte>, name: seq<byte>, path: seq<byte>)
    requires PlainName(name) && path == stem + [SLASH] + name
    ensures WithoutTrailingSlashes(path) == path && |path| > 1
    ensures NonEmpty(Split(path, SLASH)) == NonEmpty(Split(stem, SLASH)) + [name]
  {
    assert path[|path| - 1] == name[|name| - 1] && name[|name| - 1] in name;
    SplitJoined(stem, name, SLASH);
    SplitWhole(name, SLASH);
    NonEmptyJoined(Split(stem, SLASH), name);
  }

  /** The node, and each one above it below the root, has a plain name and is the first
      of that name among its siblings. */
  ghost predicate FirstsUp(nodes: seq<Record>, k: nat)
    requires Linked(nodes) && k < |nodes|
    decreases k
  {
    assert ParentLink(nodes, k);
    k > 0 ==>
      var p := nodes[k].parent.value;
      PlainName(nodes[k].name) && Child(nodes, p, nodes[k].name) == Some(k) && FirstsUp(nodes, p)
  }

  lemma {:induction false} PathOfPlainNames(nodes: seq<Record>, k: nat)
    requires Linked(nodes) && k < |nodes| && FirstsUp(nodes, k)
    ensures NonEmpty(Split(Stem(nodes, k), SLASH)) == NamesTo(nodes, k)
    ensures WithoutTrailingSlashes(Path(nodes, k)) == Stem(nodes, k)
    ensures k > 0 ==> |Path(nodes, k)| > 1
    decreases k
  {
    assert ParentLink(nodes, k);
    if k == 0 {
      assert [SLASH][..0] == [];
    } else {
      PathOfPlainNames(nodes, nodes[k].parent.value);
      PlainStep(Stem(nodes, nodes[k].parent.value), nodes[k].name, Path(nodes, k));
    }
  }

  lemma {:induction false} DescendsByNames(nodes: seq<Record>, k: nat)
    requires Linked(nodes) && k < |nodes| && FirstsUp(nodes, k)
    ensures Descend(nodes, 0, NamesTo(nodes, k)) == Some(k)
    decreases k
  {
    assert ParentLink(nodes, k);
    if k > 0 {
      var p := nodes[k].parent.value;
      DescendsByNames(nodes, p);
      DescendFurther(nodes, 0, NamesTo(nodes, p), nodes[k].name);
    }
  }

  /** Whatever plain names lead down to a node lead through the firsts above it. */
  lemma {:induction false} DescentMeansFirsts(nodes: seq<Record>, names: seq<seq<byte>>, k: nat)
    requires Linked(nodes) && k < |nodes| && Descend(nodes, 0, names) == Some(k)
    requires forall n :: n in names ==> PlainName(n)
    ensures FirstsUp(nodes, k)
    decreases |names|
  {
    if names != [] {
      hide Descend;
      var (before, last) := (names[..|names| - 1], names[|names| - 1]);
      assert names == before + [last];
      DescendFurther(nodes, 0, before, last);
      var q := Descend(nodes, 0, before).value;
      DescentMeansFirsts(nodes, before, q);
      assert ChildLinks(nodes, q) && ParentLink(nodes, k);
      FirstNamedIs(nodes, nodes[q].children, last);
      assert last in names;
    }
  }

  /** Finding a node by its path gives the node itself exactly when it and the nodes
      above it, below the root, have plain names and are the first of their name among
      their siblings. */
  lemma FoundByPathIff(nodes: seq<Record>, k: nat)
    requires Linked(nodes) && k < |nodes|
    ensures FoundByPath(nodes, k) <==> FirstsUp(nodes, k)
  {
    assert ParentLink(nodes, k);
    if FirstsUp(nodes, k) {
      PathOfPlainNames(nodes, k);
      DescendsByNames(nodes, k);
    }
    if FoundByPath(nodes, k) && k > 0 {
      SplitPartsAreFree(Path(nodes, k), SLASH);
      DescentMeansFirsts(nodes, NonEmpty(Split(Path(nodes, k), SLASH)), k);
    }
  }

  lemma {:induction false} PlainNamesGoUp(nodes: seq<Record>, k: nat)
    requires Linked(nodes) && PlainNames(nodes) && k < |nodes|
    ensures FirstsUp(nodes, k)
    decreases k
  {
    assert ParentLink(nodes, k);
    if k > 0 {
      PlainNamesGoUp(nodes, nodes[k].parent.value);
      ChildOfParent(nodes, nodes[k].parent.value, k);
    }
  }

  lemma FirstsMeanDifferent(nodes: seq<Record>, p: nat)
    requires Linked(nodes) && p < |nodes|
    requires forall c :: c in nodes[p].children ==> c < |nodes| && Child(nodes, p, nodes[c].name) == Some(c)
    ensures SiblingsDiffer(nodes, p)
  {
    assert ChildLinks(nodes, p);
    var children := nodes[p].children;
    forall i, j | 0 <= i < j < |children| ensures nodes[children[i]].name != nodes[children[j]].name {
      assert children[i] in children && children[j] in children;
      assert children[i] < children[j];
    }
  }

  ghost predicate FoundByPath(nodes: seq<Record>, k: nat)
    requires Linked(nodes) && k < |nodes|
  {
    Find(nodes, Path(nodes, k)) == Some(k)
  }

  /** Finding is the inverse of the path, for every node of a tree, exactly when every
      name but the root's is nonempty, slash-free and unique among its siblings. */
  lemma FindInvertsPathIff(nodes: seq<Record>)
    requires Linked(nodes) && nodes != []
    ensures (forall k :: 0 <= k < |nodes| ==> FoundByPath(nodes, k)) <==> PlainNames(nodes)
  {
    if PlainNames(nodes) {
      forall k | 0 <= k < |nodes| ensures FoundByPath(nodes, k) {
        PlainNamesGoUp(nodes, k);
        FoundByPathIff(nodes, k);
      }
    }
    if forall k :: 0 <= k < |nodes| ==> FoundByPath(nodes, k) {
      forall k | 0 < k < |nodes| ensures PlainName(nodes[k].name) {
        assert FoundByPath(nodes, k);
        FoundByPathIff(nodes, k);
      }
      forall p | 0 <= p < |nodes| ensures SiblingsDiffer(nodes, p) {
        assert ChildLinks(nodes, p);
        forall c | c in nodes[p].children ensures c < |nodes| && Child(nodes, p, nodes[c].name) == Some(c) {
          var i :| 0 <= i < |nodes[p].children| && nodes[p].children[i] == c;
          assert FoundByPath(nodes, c);
          FoundByPathIff(nodes, c);
        }
        FirstsMeanDifferent(nodes, p);
      }
    }
  }

  /** Then no two nodes have the same path. */
  lemma PathsDiffer(nodes: seq<Record>, j: nat, k: nat)
    requires Linked(nodes) && PlainNames(nodes) && j < |nodes| && k < |nodes| && j != k
    ensures Path(nodes, j) != Path(nodes, k)
  {
    FindInvertsPathIff(nodes);
    assert FoundByPath(nodes, j) && FoundByPath(nodes, k);
  }
}
