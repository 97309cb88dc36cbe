/** Finding a node by any path: name by name from the root, whatever the slashes. */
module FdtFinding {
  import opened Bytes
  import opened FdtLinks
  import opened FdtPaths
  import opened FdtTree
  import opened Text
  import opened Wrappers

  lemma {:induction false} DescendFurther(nodes: seq<Record>, k: nat, names: seq<seq<byte>>, name: seq<byte>)
    requires Linked(nodes) && k < |nodes|
    ensures Descend(nodes, k, names + [name]) ==
            match Descend(nodes, k, names) case None => None case Some(c) => Child(nodes, c, name)
    decreases |names|
  {
    hide Linked, Child;
    var all := names + [name];
    if names == [] {
      assert all[0] == name && all[1..] == [];
      match Child(nodes, k, name)
      case None =>
      case Some(c) => assert Descend(nodes, c, []) == Some(c);
    } else {
      assert all[0] == names[0] && all[1..] == names[1..] + [name];
      match Child(nodes, k, names[0])
      case None =>
      case Some(c) => DescendFurther(nodes, c, names[1..], name);
    }
  }

  /** One more name leads to the first child of that name, if there is one. */
  lemma FindStep(nodes: seq<Record>, path: seq<byte>, name: seq<byte>)
    requires Linked(nodes) && nodes != [] && name != [] && 0x2f !in name
    ensures Find(nodes, path + [0x2f] + name) ==
            match Find(nodes, path) case None => None case Some(k) => Child(nodes, k, name)
  {
    hide Linked, Split, Child, Descend, NonEmpty;
    PlainStep(path, name, path + [0x2f] + name);
    FoundByNames(nodes, path);
    FoundByNames(nodes, path + [0x2f] + name);
    DescendFurther(nodes, 0, NonEmpty(Split(path, SLASH)), name);
  }

  /** The path of the root is a special case of the others. */
  lemma FoundByNames(nodes: seq<Record>, path: seq<byte>)
    requires Linked(nodes) && nodes != []
    ensures Find(nodes, path) == Descend(nodes, 0, NonEmpty(Split(path, SLASH)))
  {
    hide Linked, Split, Child;
    if path == [SLASH] {
      SplitNothing(SLASH);
      SplitFirst(SLASH, [], SLASH);
      assert [SLASH] + [] == [SLASH];
      var parts: seq<seq<byte>> := [[], []];
      assert Split(path, SLASH) == parts && parts[1..][1..] == [] && NonEmpty(parts) == [];
    }
  }

  lemma {:induction false} NonEmptyOfBoth(a: seq<seq<byte>>, b: seq<seq<byte>>)
    ensures NonEmpty(a + b) == NonEmpty(a) + NonEmpty(b)
    decreases |a|
  {
    if a == [] {
      assert a + b == b;
    } else {
      assert (a + b)[1..] == a[1..] + b;
      NonEmptyOfBoth(a[1..], b);
    }
  }

  lemma NamesJoined(a: seq<byte>, b: seq<byte>)
    ensures NonEmpty(Split(a + [SLASH] + b, SLASH)) == NonEmpty(Split(a, SLASH)) + NonEmpty(Split(b, SLASH))
  {
    hide Split, NonEmpty;
    SplitJoined(a, b, SLASH);
    NonEmptyOfBoth(Split(a, SLASH), Split(b, SLASH));
  }

  lemma NoNames()
    ensures NonEmpty(Split([], SLASH)) == []
  {
  }

  /** Slashes before, after and next to others make no difference, and the empty path is
      the root. */
  lemma SlashesIgnored(nodes: seq<Record>, p: seq<byte>, q: seq<byte>)
    requires Linked(nodes) && nodes != []
    ensures Find(nodes, []) == Some(0) && Find(nodes, [0x2f]) == Some(0)
    ensures Find(nodes, [0x2f] + p) == Find(nodes, p) == Find(nodes, p + [0x2f])
    ensures Find(nodes, p + [0x2f, 0x2f] + q) == Find(nodes, p + [0x2f] + q)
  {
    NoNames();
    assert Descend(nodes, 0, []) == Some(0);
    hide Linked, Split, NonEmpty, Find, Descend;
    FoundByNames(nodes, []);
    FoundByNames(nodes, [SLASH]);
    NamesJoined([], []);
    assert [] + [SLASH] + [] == [SLASH];
    Around(nodes, p);
    Between(nodes, p, q);
  }

  lemma Around(nodes: seq<Record>, p: seq<byte>)
    requires Linked(nodes) && nodes != []
    ensures Find(nodes, [SLASH] + p) == Find(nodes, p) == Find(nodes, p + [SLASH])
  {
    hide Linked, Split, NonEmpty, Find, Descend;
    FoundByNames(nodes, p);
    FoundByNames(nodes, [SLASH] + p);
    FoundByNames(nodes, p + [SLASH]);
    NamesJoined([], p);
    NamesJoined(p, []);
    NoNames();
    assert [] + [SLASH] + p == [SLASH] + p && p + [SLASH] + [] == p + [SLASH];
    var names := NonEmpty(Split(p, SLASH));
    assert [] + names == names && names + [] == names;
  }

  lemma Between(nodes: seq<Record>, p: seq<byte>, q: seq<byte>)
    requires Linked(nodes) && nodes != []
    ensures Find(nodes, p + [SLASH, SLASH] + q) == Find(nodes, p + [SLASH] + q)
  {
    hide Linked, Split, NonEmpty, Find, Descend;
    FoundByNames(nodes, p + [SLASH, SLASH] + q);
    FoundByNames(nodes, p + [SLASH] + q);
    NamesJoined(p, q);
    NamesJoined(p, [SLASH] + q);
    NamesJoined([], q);
    NoNames();
    var names := NonEmpty(Split(q, SLASH));
    assert [] + [SLASH] + q == [SLASH] + q && [] + names == names;
    assert p + [SLASH] + ([SLASH] + q) == p + [SLASH, SLASH] + q;
  }
}
