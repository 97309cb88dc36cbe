/** Parent and child links of a device tree: what every step of the stack machine
    keeps, and reading a tree back through its links. */
module FdtLinks {
  import opened Bytes
  import opened FdtTokens
  import opened FdtTree
  import opened Wrappers

  // The invariant of the parser's loop -------------------------------------------

  /** Node `k` is the root, or its parent came before it and lists it. */
  ghost predicate ParentLink(nodes: seq<Record>, k: nat)
    requires k < |nodes|
  {
    if k == 0 then nodes[k].parent == None
    else nodes[k].parent.Some? && nodes[k].parent.value < k && k in nodes[nodes[k].parent.value].children
  }

  /** Every child node `k` lists came after it and names it as its parent; no child
      is listed twice. */
  ghost predicate ChildLinks(nodes: seq<Record>, k: nat)
    requires k < |nodes|
  {
    && (forall i :: 0 <= i < |nodes[k].children| ==>
          k < nodes[k].children[i] < |nodes| && nodes[nodes[k].children[i]].parent == Some(k))
    && (forall i, j :: 0 <= i < j < |nodes[k].children| ==> nodes[k].children[i] < nodes[k].children[j])
  }

  ghost predicate Linked(nodes: seq<Record>) {
    forall k :: 0 <= k < |nodes| ==> ParentLink(nodes, k) && ChildLinks(nodes, k)
  }

  /** The stack is the chain of parent links from the root to the open node. */
  ghost predicate Chain(nodes: seq<Record>, stack: seq<nat>) {
    && (forall i :: 0 <= i < |stack| ==> stack[i] < |nodes|)
    && (stack != [] ==> stack[0] == 0)
    && (forall i :: 0 < i < |stack| ==> nodes[stack[i]].parent == Some(stack[i - 1]))
  }

  ghost predicate Consistent(m: Machine) {
    Linked(m.nodes) && Chain(m.nodes, m.stack)
  }

  /** Links look at parents and children only. */
  lemma LinksStay(a: seq<Record>, b: seq<Record>, stack: seq<nat>)
    requires Linked(a) && Chain(a, stack) && |a| == |b|
    requires forall k :: 0 <= k < |a| ==> a[k].parent == b[k].parent && a[k].children == b[k].children
    ensures Linked(b) && Chain(b, stack)
  {
    forall k | 0 <= k < |b| ensures ParentLink(b, k) && ChildLinks(b, k) {
      assert ParentLink(a, k) && ChildLinks(a, k);
    }
  }

  lemma LinksWithChild(nodes: seq<Record>, grown: seq<Record>, top: nat, name: seq<byte>, k: nat)
    requires Linked(nodes) && top < |nodes| && k < |grown|
    requires grown == AddChild(nodes, top, |nodes|) + [Record(name, Some(top), [], [])]
    ensures ParentLink(grown, k) && ChildLinks(grown, k)
  {
    var n := |nodes|;
    if k < n {
      assert ParentLink(nodes, k) && ChildLinks(nodes, k);
    } else {
      assert grown[top].children[|nodes[top].children|] == n;
    }
  }

  lemma ChildAdded(nodes: seq<Record>, stack: seq<nat>, top: nat, name: seq<byte>)
    requires Linked(nodes) && Chain(nodes, stack) && stack != [] && top == stack[|stack| - 1]
    ensures var grown := AddChild(nodes, top, |nodes|) + [Record(name, Some(top), [], [])];
      Linked(grown) && Chain(grown, stack + [|nodes|])
  {
    hide ParentLink, ChildLinks;
    var grown := AddChild(nodes, top, |nodes|) + [Record(name, Some(top), [], [])];
    forall k | 0 <= k < |grown| ensures ParentLink(grown, k) && ChildLinks(grown, k) {
      LinksWithChild(nodes, grown, top, name, k);
    }
  }

  /** Every token keeps the links in agreement and the stack a chain of parents. */
  lemma StepKeepsLinks(m: Machine, t: Token)
    requires Consistent(m) && Step(m, t).Ok?
    ensures Consistent(Step(m, t).value)
  {
    var next := Step(m, t).value;
    match t
    case Begin(name) =>
      if m.stack != [] {
        ChildAdded(m.nodes, m.stack, Top(m), name);
      }
    case Prop(name, value) => LinksStay(m.nodes, next.nodes, m.stack);
    case _ =>
  }

  lemma {:induction false} RunKeepsLinks(m: Machine, ts: seq<Token>)
    requires Consistent(m) && Run(m, ts).Ok?
    ensures Consistent(Run(m, ts).value)
    decreases |ts|
  {
    if ts != [] {
      StepKeepsLinks(m, ts[0]);
      RunKeepsLinks(Step(m, ts[0]).value, ts[1..]);
    }
  }

  /** The records of every tree are linked. */
  lemma LayoutIsLinked(t: Tree)
    ensures Linked(Layout(t, 0, None))
  {
    DocumentIsBuilt(0, t, 0);
    RunKeepsLinks(EMPTY, Document(0, t, 0));
  }

  // Reading a tree through its links ---------------------------------------------

  /** A tree as a value: properties in order, children in order. */
  datatype Value = Value(name: seq<byte>, properties: seq<Property>, children: seq<Value>)

  /** What a flattened tree means. */
  function Meaning(t: Tree): Value
    decreases Size(t), 0
  {
    Value(t.name, PropertiesOf(t.items, []), ChildMeanings(t.items))
  }

  function PropertiesOf(items: seq<Item>, before: seq<Property>): seq<Property>
    decreases |items|
  {
    if items == [] then before
    else PropertiesOf(items[1..], if items[0].Entry? then Assign(before, items[0].name, items[0].value) else before)
  }

  function ChildMeanings(items: seq<Item>): seq<Value>
    decreases SizeItems(items), |items| + 1
  {
    if items == [] then []
    else if items[0].Node? then
      assert SizeItem(items[0]) == Size(items[0].tree);
      [Meaning(items[0].tree)] + ChildMeanings(items[1..])
    else ChildMeanings(items[1..])
  }

  /** All of them come after node `k`. */
  predicate After(children: seq<nat>, k: nat, size: nat) {
    forall i :: 0 <= i < |children| ==> k < children[i] < size
  }

  predicate Descending(nodes: seq<Record>) {
    forall k :: 0 <= k < |nodes| ==> After(nodes[k].children, k, |nodes|)
  }

  function ValueAt(nodes: seq<Record>, k: nat): Value
    requires Descending(nodes) && k < |nodes|
    decreases |nodes| - k, |nodes[k].children| + 1
  {
    Value(nodes[k].name, nodes[k].properties, ValuesAt(nodes, k, nodes[k].children))
  }

  function ValuesAt(nodes: seq<Record>, k: nat, children: seq<nat>): seq<Value>
    requires Descending(nodes) && k < |nodes| && After(children, k, |nodes|)
    decreases |nodes| - k, |children|
  {
    if children == [] then [] else [ValueAt(nodes, children[0])] + ValuesAt(nodes, k, children[1..])
  }

  /** `walk`: a node, then each child's walk in turn. */
  function Walk(nodes: seq<Record>, k: nat): seq<nat>
    requires Descending(nodes) && k < |nodes|
    decreases |nodes| - k, |nodes[k].children| + 1
  {
    [k] + Walks(nodes, k, nodes[k].children)
  }

  function Walks(nodes: seq<Record>, k: nat, children: seq<nat>): seq<nat>
    requires Descending(nodes) && k < |nodes| && After(children, k, |nodes|)
    decreases |nodes| - k, |children|
  {
    if children == [] then [] else Walk(nodes, children[0]) + Walks(nodes, k, children[1..])
  }

  /** Consecutive numbers. */
  function Numbers(from: nat, count: nat): (r: seq<nat>)
    ensures |r| == count && forall i :: 0 <= i < count ==> r[i] == from + i
  {
    seq(count, i requires 0 <= i < count => from + i)
  }

  /** `part` stands among the records from number `base` on. */
  ghost predicate Stands(nodes: seq<Record>, base: nat, part: seq<Record>) {
    base + |part| <= |nodes| && nodes[base..base + |part|] == part
  }

  lemma StandsApart(nodes: seq<Record>, base: nat, a: seq<Record>, b: seq<Record>)
    requires Stands(nodes, base, a + b)
    ensures Stands(nodes, base, a) && Stands(nodes, base + |a|, b)
  {
    var w := nodes[base..base + |a + b|];
    assert nodes[base..base + |a|] == w[..|a|] == a;
    assert nodes[base + |a|..base + |a| + |b|] == w[|a|..] == b;
  }

  function ChildrenOf(items: seq<Item>, next: nat): seq<nat>
    decreases |items|
  {
    if items == [] then []
    else if items[0].Node? then [next] + ChildrenOf(items[1..], next + SizeItem(items[0]))
    else ChildrenOf(items[1..], next)
  }

  /** What items make of a node: its properties and its children. */
  lemma {:induction false} GrownIs(r: Record, items: seq<Item>, next: nat)
    ensures Grown(r, items, next)
         == r.(properties := PropertiesOf(items, r.properties), children := r.children + ChildrenOf(items, next))
    decreases |items|
  {
    if items != [] {
      GrownIs(GrownBy(r, items[0], next), items[1..], next + SizeItem(items[0]));
    } else {
      assert r.children + [] == r.children;
    }
  }

  /** From node `k` one reads `v`, and walks `count` nodes one after another. */
  ghost predicate Reads(nodes: seq<Record>, k: nat, v: Value, count: nat)
    requires Descending(nodes) && k < |nodes|
  {
    ValueAt(nodes, k) == v && Walk(nodes, k) == Numbers(k, count)
  }

  ghost predicate ChildrenRead(nodes: seq<Record>, k: nat, children: seq<nat>, vs: seq<Value>, from: nat, count: nat)
    requires Descending(nodes) && k < |nodes| && After(children, k, |nodes|)
  {
    ValuesAt(nodes, k, children) == vs && Walks(nodes, k, children) == Numbers(from, count)
  }

  lemma FirstChildReads(nodes: seq<Record>, k: nat, all: seq<nat>, c: nat, rest: seq<nat>, v: Value, vs: seq<Value>,
                        n: nat, m: nat)
    requires Descending(nodes) && k < |nodes| && After(all, k, |nodes|) && all == [c] + rest
    requires c < |nodes| && Reads(nodes, c, v, n)
    requires After(rest, k, |nodes|) && ChildrenRead(nodes, k, rest, vs, c + n, m)
    ensures ChildrenRead(nodes, k, all, [v] + vs, c, n + m)
  {
    assert all[1..] == rest;
    assert Numbers(c, n) + Numbers(c + n, m) == Numbers(c, n + m);
  }

  lemma RootReads(nodes: seq<Record>, k: nat, root: Record, vs: seq<Value>, n: nat)
    requires Descending(nodes) && k < |nodes| && nodes[k] == root
    requires After(root.children, k, |nodes|) && ChildrenRead(nodes, k, root.children, vs, k + 1, n)
    ensures Reads(nodes, k, Value(root.name, root.properties, vs), 1 + n)
  {
    assert [k] + Numbers(k + 1, n) == Numbers(k, 1 + n);
  }

  /** A tree's records, wherever they stand, read back as its meaning and are walked
      one after another. */
  lemma {:induction false} TreeReadsBack(nodes: seq<Record>, t: Tree, base: nat, parent: Option<nat>)
    requires Descending(nodes) && Stands(nodes, base, Layout(t, base, parent))
    ensures Reads(nodes, base, Meaning(t), Size(t))
    decreases Size(t), 0
  {
    var r := Record(t.name, parent, [], []);
    var root := Grown(r, t.items, base + 1);
    GrownIs(r, t.items, base + 1);
    assert root.children == ChildrenOf(t.items, base + 1);
    StandsApart(nodes, base, [root], LayoutItems(t.items, base + 1, base));
    assert nodes[base] == nodes[base..base + 1][0] == root;
    ItemsReadBack(nodes, t.items, base + 1, base);
    RootReads(nodes, base, root, ChildMeanings(t.items), SizeItems(t.items));
  }

  lemma NoItemsRead(nodes: seq<Record>, next: nat, owner: nat)
    requires Descending(nodes) && owner < |nodes|
    ensures After(ChildrenOf([], next), owner, |nodes|)
    ensures ChildrenRead(nodes, owner, ChildrenOf([], next), ChildMeanings([]), next, SizeItems([]))
  {
  }

  /** Items that are not nodes leave no trace in the links. */
  lemma OtherFirst(items: seq<Item>, next: nat)
    requires items != [] && !items[0].Node?
    ensures SizeItem(items[0]) == 0 && SizeItems(items) == SizeItems(items[1..])
    ensures ChildrenOf(items, next) == ChildrenOf(items[1..], next) && ChildMeanings(items) == ChildMeanings(items[1..])
  {
  }

  lemma {:induction false} ItemsReadBack(nodes: seq<Record>, items: seq<Item>, next: nat, owner: nat)
    requires Descending(nodes) && owner < next && owner < |nodes|
    requires Stands(nodes, next, LayoutItems(items, next, owner))
    requires After(ChildrenOf(items, next), owner, |nodes|)
    ensures ChildrenRead(nodes, owner, ChildrenOf(items, next), ChildMeanings(items), next, SizeItems(items))
    decreases SizeItems(items), |items| + 1
  {
    hide Stands, Descending, After, ChildrenOf, ChildMeanings, ChildrenRead, SizeItems, Layout;
    if items == [] {
      NoItemsRead(nodes, next, owner);
    } else {
      var (first, rest, later) := (items[0], items[1..], next + SizeItem(items[0]));
      StandsApart(nodes, next, LayoutItem(first, next, owner), LayoutItems(rest, later, owner));
      if first.Node? {
        NodeFirstReadsBack(nodes, items, next, owner, first.tree, rest, later);
      } else {
        OtherFirst(items, next);
        ItemsReadBack(nodes, rest, next, owner);
      }
    }
  }

  lemma {:induction false} NodeFirstReadsBack(nodes: seq<Record>, items: seq<Item>, next: nat, owner: nat,
                                              t: Tree, rest: seq<Item>, later: nat)
    requires Descending(nodes) && owner < next && owner < |nodes|
    requires items != [] && items[0] == Node(t) && items[1..] == rest && later == next + Size(t)
    requires Stands(nodes, next, Layout(t, next, Some(owner))) && Stands(nodes, later, LayoutItems(rest, later, owner))
    requires After(ChildrenOf(items, next), owner, |nodes|)
    ensures ChildrenRead(nodes, owner, ChildrenOf(items, next), ChildMeanings(items), next, SizeItems(items))
    decreases SizeItems(items), |items|
  {
    hide Stands, Descending, ChildrenRead, Reads, Layout, LayoutItems, Meaning, ChildMeanings, ChildrenOf,
         SizeItems;
    NodeFirst(items, t);
    ChildrenAfterFirst(items, next, owner, |nodes|);
    ItemsReadBack(nodes, rest, later, owner);
    TreeReadsBack(nodes, t, next, Some(owner));
    FirstChildReads(nodes, owner, ChildrenOf(items, next), next, ChildrenOf(rest, later), Meaning(t),
                    ChildMeanings(rest), Size(t), SizeItems(rest));
  }

  lemma NodeFirst(items: seq<Item>, t: Tree)
    requires items != [] && items[0] == Node(t)
    ensures SizeItem(items[0]) == Size(t) && SizeItems(items) == Size(t) + SizeItems(items[1..])
    ensures ChildMeanings(items) == [Meaning(t)] + ChildMeanings(items[1..])
  {
  }

  lemma ChildrenAfterFirst(items: seq<Item>, next: nat, owner: nat, size: nat)
    requires items != [] && items[0].Node? && After(ChildrenOf(items, next), owner, size)
    ensures var rest := ChildrenOf(items[1..], next + SizeItem(items[0]));
      ChildrenOf(items, next) == [next] + rest && After(rest, owner, size) && next < size
  {
    var (all, rest) := (ChildrenOf(items, next), ChildrenOf(items[1..], next + SizeItem(items[0])));
    assert all[0] == next;
    forall i | 0 <= i < |rest| ensures owner < rest[i] < size {
      assert rest[i] == all[i + 1];
    }
  }

  lemma LinkedDescends(nodes: seq<Record>)
    requires Linked(nodes)
    ensures Descending(nodes)
  {
    forall k | 0 <= k < |nodes| ensures After(nodes[k].children, k, |nodes|) {
      assert ChildLinks(nodes, k);
    }
  }

  /** A whole tree's records: the root reads back as the tree, and walking visits
      every node exactly once, in the order of creation. */
  lemma LayoutReadsBack(t: Tree)
    ensures var nodes := Layout(t, 0, None);
      && Linked(nodes) && Descending(nodes)
      && ValueAt(nodes, 0) == Meaning(t) && Walk(nodes, 0) == Numbers(0, |nodes|)
  {
    var nodes := Layout(t, 0, None);
    LayoutIsLinked(t);
    LinkedDescends(nodes);
    assert nodes[0..|nodes|] == nodes;
    TreeReadsBack(nodes, t, 0, None);
  }

  // Distinct property names --------------------------------------------------------

  /** The properties as they were written. */
  function Written(items: seq<Item>): seq<Property> {
    if items == [] then []
    else if items[0].Entry? then [Property(items[0].name, items[0].value)] + Written(items[1..])
    else Written(items[1..])
  }

  ghost predicate DistinctNames(properties: seq<Property>) {
    forall i, j :: 0 <= i < j < |properties| ==> properties[i].name != properties[j].name
  }

  lemma {:induction false} AssignNew(properties: seq<Property>, name: seq<byte>, value: seq<byte>)
    requires forall i :: 0 <= i < |properties| ==> properties[i].name != name
    ensures Assign(properties, name, value) == properties + [Property(name, value)]
    decreases |properties|
  {
    if properties != [] {
      AssignNew(properties[1..], name, value);
    }
  }

  /** With distinct names, the dictionary holds exactly what was written, in order. */
  lemma {:induction false} DistinctPropertiesKept(items: seq<Item>, before: seq<Property>)
    requires DistinctNames(before + Written(items))
    ensures PropertiesOf(items, before) == before + Written(items)
    decreases |items|
  {
    if items == [] {
      assert before + [] == before;
    } else if items[0].Entry? {
      var p := Property(items[0].name, items[0].value);
      var all := before + Written(items);
      forall i | 0 <= i < |before| ensures before[i].name != p.name {
        assert all[i] == before[i] && all[|before|] == p;
      }
      AssignNew(before, p.name, p.value);
      assert before + [p] + Written(items[1..]) == all;
      DistinctPropertiesKept(items[1..], before + [p]);
    } else {
      DistinctPropertiesKept(items[1..], before);
    }
  }

  /** No node of the tree has two properties of one name. */
  ghost predicate DistinctTree(t: Tree)
    decreases Size(t), 0
  {
    DistinctNames(Written(t.items)) && DistinctItems(t.items)
  }

  ghost predicate DistinctItems(items: seq<Item>)
    decreases SizeItems(items), |items| + 1
  {
    items != [] ==>
      && (items[0].Node? ==> assert SizeItem(items[0]) == Size(items[0].tree); DistinctTree(items[0].tree))
      && DistinctItems(items[1..])
  }

  /** The tree exactly as it was written. */
  function Exact(t: Tree): Value
    decreases Size(t), 0
  {
    Value(t.name, Written(t.items), ExactChildren(t.items))
  }

  function ExactChildren(items: seq<Item>): seq<Value>
    decreases SizeItems(items), |items| + 1
  {
    if items == [] then []
    else if items[0].Node? then
      assert SizeItem(items[0]) == Size(items[0].tree);
      [Exact(items[0].tree)] + ExactChildren(items[1..])
    else ExactChildren(items[1..])
  }

  /** With distinct property names, a tree means exactly what was written. */
  lemma {:induction false} MeaningIsExact(t: Tree)
    requires DistinctTree(t)
    ensures Meaning(t) == Exact(t)
    decreases Size(t), 0
  {
    assert [] + Written(t.items) == Written(t.items);
    DistinctPropertiesKept(t.items, []);
    ChildrenAreExact(t.items);
  }

  lemma {:induction false} ChildrenAreExact(items: seq<Item>)
    requires DistinctItems(items)
    ensures ChildMeanings(items) == ExactChildren(items)
    decreases SizeItems(items), |items| + 1
  {
    if items != [] {
      if items[0].Node? {
        assert SizeItem(items[0]) == Size(items[0].tree);
        MeaningIsExact(items[0].tree);
      }
      ChildrenAreExact(items[1..]);
    }
  }
}
