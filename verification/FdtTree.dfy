/** Device trees: the stack machine that builds one from tokens, the grammar of the
    token streams it accepts, and the tree each of them denotes. */
module FdtTree {
  import opened Bytes
  import opened FdtTokens
  import opened Wrappers

  // The tree under construction ------------------------------------------------

  datatype Property = Property(name: seq<byte>, value: seq<byte>)

  /** A node of the tree; other nodes are named by their position in creation order. */
  datatype Record = Record(name: seq<byte>, parent: Option<nat>, properties: seq<Property>, children: seq<nat>)

  /** The nodes created so far, and the open ones from the root down. */
  datatype Machine = Machine(nodes: seq<Record>, stack: seq<nat>)

  const EMPTY: Machine := Machine([], [])

  /** A dictionary store: a known name keeps its place and gets the new value. */
  function Assign(properties: seq<Property>, name: seq<byte>, value: seq<byte>): (r: seq<Property>)
    ensures |r| > 0
  {
    if properties == [] then [Property(name, value)]
    else if properties[0].name == name then [Property(name, value)] + properties[1..]
    else [properties[0]] + Assign(properties[1..], name, value)
  }

  predicate Has(properties: seq<Property>, name: seq<byte>) {
    exists i :: 0 <= i < |properties| && properties[i].name == name
  }

  lemma HasInTail(properties: seq<Property>, name: seq<byte>)
    requires properties != [] && properties[0].name != name
    ensures Has(properties, name) <==> Has(properties[1..], name)
  {
    assert forall i :: 0 < i < |properties| ==> properties[i] == properties[1..][i - 1];
  }

  /** Storing keeps every other property where it is; a known name keeps its place, a
      new one goes last, and either way the name now has the value. */
  lemma {:induction false} AssignStores(properties: seq<Property>, name: seq<byte>, value: seq<byte>)
    ensures var r := Assign(properties, name, value);
      && |r| == (if Has(properties, name) then |properties| else |properties| + 1)
      && (forall i :: 0 <= i < |properties| ==> r[i].name == properties[i].name)
      && (forall i :: 0 <= i < |properties| && properties[i].name != name ==> r[i] == properties[i])
      && (exists i :: 0 <= i < |r| && r[i] == Property(name, value))
    decreases |properties|
  {
    var r := Assign(properties, name, value);
    if properties == [] || properties[0].name == name {
      assert r[0] == Property(name, value);
    } else {
      hide Has;
      var rest := properties[1..];
      AssignStores(rest, name, value);
      HasInTail(properties, name);
      var s := Assign(rest, name, value);
      assert forall i :: 0 < i < |r| ==> r[i] == s[i - 1];
      assert forall i :: 0 < i < |properties| ==> properties[i] == rest[i - 1];
      var j :| 0 <= j < |s| && s[j] == Property(name, value);
      assert r[j + 1] == Property(name, value);
    }
  }

  function Top(m: Machine): nat
    requires m.stack != []
  {
    m.stack[|m.stack| - 1]
  }

  function AddChild(nodes: seq<Record>, at: nat, child: nat): seq<Record>
    requires at < |nodes|
  {
    nodes[at := nodes[at].(children := nodes[at].children + [child])]
  }

  predicate StackInside(m: Machine) {
    forall i :: 0 <= i < |m.stack| ==> m.stack[i] < |m.nodes|
  }

  /** One token. Errors are the parser's; `Finish` is not a step. */
  function Step(m: Machine, t: Token): (r: Result<Machine, FdtError>)
    requires StackInside(m)
    ensures r.Ok? ==> StackInside(r.value)
  {
    match t
    case Begin(name) =>
      var n := |m.nodes|;
      if m.stack != [] then
        Ok(Machine(AddChild(m.nodes, Top(m), n) + [Record(name, Some(Top(m)), [], [])], m.stack + [n]))
      else if n == 0 then Ok(Machine([Record(name, None, [], [])], [0]))
      else Err(MoreThanOneRoot)
    case End =>
      if m.stack == [] then Err(UnbalancedEnd) else Ok(m.(stack := m.stack[..|m.stack| - 1]))
    case Prop(name, value) =>
      if m.stack == [] then Err(MisplacedProperty)
      else
        var top := m.nodes[Top(m)];
        Ok(m.(nodes := m.nodes[Top(m) := top.(properties := Assign(top.properties, name, value))]))
    case Nop => Ok(m)
    case Finish => Err(Incomplete)
  }

  function Run(m: Machine, ts: seq<Token>): (r: Result<Machine, FdtError>)
    requires StackInside(m)
    ensures r.Ok? ==> StackInside(r.value)
    decreases |ts|
  {
    if ts == [] then Ok(m)
    else
      var next :- Step(m, ts[0]);
      Run(next, ts[1..])
  }

  lemma {:induction false} RunSplits(m: Machine, a: seq<Token>, b: seq<Token>)
    requires StackInside(m)
    ensures Run(m, a + b) == match Run(m, a) { case Err(error) => Err(error) case Ok(n) => Run(n, b) }
    decreases |a|
  {
    if a == [] {
      assert a + b == b;
    } else {
      assert (a + b)[1..] == a[1..] + b;
      if Step(m, a[0]).Ok? {
        RunSplits(Step(m, a[0]).value, a[1..], b);
      }
    }
  }

  // The grammar ----------------------------------------------------------------

  datatype Tree = Tree(name: seq<byte>, items: seq<Item>)
  datatype Item = Entry(name: seq<byte>, value: seq<byte>) | Node(tree: Tree) | Padding

  function Flatten(t: Tree): seq<Token> {
    [Begin(t.name)] + FlattenItems(t.items) + [End]
  }

  function FlattenItem(item: Item): seq<Token> {
    match item
    case Entry(name, value) => [Prop(name, value)]
    case Node(tree) => Flatten(tree)
    case Padding => [Nop]
  }

  function FlattenItems(items: seq<Item>): seq<Token> {
    if items == [] then [] else FlattenItem(items[0]) + FlattenItems(items[1..])
  }

  function Nops(n: nat): seq<Token> {
    seq(n, _ => Nop)
  }

  /** A whole structure block: one tree, with any padding around it. */
  function Document(before: nat, t: Tree, after: nat): seq<Token> {
    Nops(before) + Flatten(t) + Nops(after)
  }

  // What a tree denotes --------------------------------------------------------

  function Size(t: Tree): (n: nat)
    ensures n > 0
  {
    1 + SizeItems(t.items)
  }

  function SizeItem(item: Item): nat {
    match item
    case Node(tree) => Size(tree)
    case _ => 0
  }

  function SizeItems(items: seq<Item>): nat {
    if items == [] then 0 else SizeItem(items[0]) + SizeItems(items[1..])
  }

  /** A node after one more item, when the next new node is number `next`: entries
      are stored in its dictionary, nodes become its last child. */
  function GrownBy(r: Record, item: Item, next: nat): Record {
    match item
    case Entry(name, value) => r.(properties := Assign(r.properties, name, value))
    case Node(_) => r.(children := r.children + [next])
    case Padding => r
  }

  function Grown(r: Record, items: seq<Item>, next: nat): Record
    decreases |items|
  {
    if items == [] then r else Grown(GrownBy(r, items[0], next), items[1..], next + SizeItem(items[0]))
  }

  /** The records of a tree whose root is number `base`: the root, then those of each
      child in turn. */
  function Layout(t: Tree, base: nat, parent: Option<nat>): (r: seq<Record>)
    ensures |r| == Size(t)
  {
    [Grown(Record(t.name, parent, [], []), t.items, base + 1)] + LayoutItems(t.items, base + 1, base)
  }

  function LayoutItem(item: Item, next: nat, owner: nat): (r: seq<Record>)
    ensures |r| == SizeItem(item)
  {
    match item
    case Node(tree) => Layout(tree, next, Some(owner))
    case _ => []
  }

  function LayoutItems(items: seq<Item>, next: nat, owner: nat): (r: seq<Record>)
    ensures |r| == SizeItems(items)
  {
    if items == [] then []
    else LayoutItem(items[0], next, owner) + LayoutItems(items[1..], next + SizeItem(items[0]), owner)
  }

  // Completeness: every flattened tree is built ----------------------------------

  /** The machine after items read inside an open node. */
  function AfterItems(m: Machine, items: seq<Item>): (r: Machine)
    requires StackInside(m) && m.stack != []
    ensures StackInside(r) && r.stack == m.stack && |r.nodes| == |m.nodes| + SizeItems(items)
  {
    var (top, n) := (Top(m), |m.nodes|);
    m.(nodes := m.nodes[top := Grown(m.nodes[top], items, n)] + LayoutItems(items, n, top))
  }

  function AfterItem(m: Machine, item: Item): (r: Machine)
    requires StackInside(m) && m.stack != []
    ensures StackInside(r) && r.stack == m.stack && |r.nodes| == |m.nodes| + SizeItem(item)
  {
    var (top, n) := (Top(m), |m.nodes|);
    m.(nodes := m.nodes[top := GrownBy(m.nodes[top], item, n)] + LayoutItem(item, n, top))
  }

  lemma ItemsOneByOne(m: Machine, items: seq<Item>)
    requires StackInside(m) && m.stack != [] && items != []
    ensures AfterItems(m, items) == AfterItems(AfterItem(m, items[0]), items[1..])
  {
    var (top, n) := (Top(m), |m.nodes|);
    var (a, b) := (AfterItems(m, items).nodes, AfterItems(AfterItem(m, items[0]), items[1..]).nodes);
    var first := LayoutItem(items[0], n, top);
    var rest := LayoutItems(items[1..], n + |first|, top);
    var one := m.nodes[top := GrownBy(m.nodes[top], items[0], n)];
    assert (one + first)[top] == one[top];
    assert a == m.nodes[top := Grown(one[top], items[1..], n + |first|)] + (first + rest);
    assert b == (one + first)[top := Grown(one[top], items[1..], n + |first|)] + rest;
  }

  /** What is read inside an open node is built under it, and the node stays open. */
  lemma {:induction false} ItemsAreBuilt(m: Machine, items: seq<Item>)
    requires StackInside(m) && m.stack != []
    ensures Run(m, FlattenItems(items)) == Ok(AfterItems(m, items))
    decreases items
  {
    if items == [] {
      assert AfterItems(m, items).nodes == m.nodes;
    } else {
      ItemIsBuilt(m, items[0]);
      RunSplits(m, FlattenItem(items[0]), FlattenItems(items[1..]));
      ItemsAreBuilt(AfterItem(m, items[0]), items[1..]);
      ItemsOneByOne(m, items);
    }
  }

  lemma RunOne(m: Machine, t: Token)
    requires StackInside(m)
    ensures Run(m, [t]) == Step(m, t)
  {
    assert [t][1..] == [];
  }

  lemma {:induction false} ItemIsBuilt(m: Machine, item: Item)
    requires StackInside(m) && m.stack != []
    ensures Run(m, FlattenItem(item)) == Ok(AfterItem(m, item))
    decreases item
  {
    match item
    case Entry(name, value) =>
      RunOne(m, Prop(name, value));
      assert AfterItem(m, item).nodes == Step(m, Prop(name, value)).value.nodes;
    case Padding =>
      RunOne(m, Nop);
      assert AfterItem(m, item).nodes == m.nodes;
    case Node(tree) => NodeIsBuilt(m, tree);
  }

  lemma {:induction false} NodeIsBuilt(m: Machine, t: Tree)
    requires StackInside(m) && m.stack != []
    ensures Run(m, Flatten(t)) == Ok(AfterItem(m, Node(t)))
    decreases t
  {
    hide Run, Grown, Flatten, FlattenItems;
    var begun := Step(m, Begin(t.name)).value;
    ItemsAreBuilt(begun, t.items);
    RunFlatten(m, t, begun, AfterItems(begun, t.items));
    var n := |m.nodes|;
    assert begun.nodes[n] == Record(t.name, Some(Top(m)), [], []);
    var before := AddChild(m.nodes, Top(m), n);
    var (root, rest) := (Grown(begun.nodes[n], t.items, n + 1), LayoutItems(t.items, n + 1, n));
    assert AfterItems(begun, t.items).nodes == (before + [begun.nodes[n]])[n := root] + rest;
    assert (before + [begun.nodes[n]])[n := root] + rest == before + ([root] + rest);
    assert Layout(t, n, Some(Top(m))) == [root] + rest;
    assert AfterItem(m, Node(t)).nodes == before + ([root] + rest);
    assert AfterItem(m, Node(t)).stack == m.stack;
    assert AfterItems(begun, t.items).stack[..|m.stack|] == m.stack;
  }

  /** A flattened tree runs as its first token, its items and its last token. */
  lemma RunFlatten(m: Machine, t: Tree, begun: Machine, filled: Machine)
    requires StackInside(m) && StackInside(begun) && StackInside(filled)
    requires Step(m, Begin(t.name)) == Ok(begun) && Run(begun, FlattenItems(t.items)) == Ok(filled)
    ensures Run(m, Flatten(t)) == Step(filled, End)
  {
    var items := FlattenItems(t.items);
    assert Flatten(t) == [Begin(t.name)] + (items + [End]);
    RunSplits(m, [Begin(t.name)], items + [End]);
    RunOne(m, Begin(t.name));
    RunSplits(begun, items, [End]);
    RunOne(filled, End);
  }

  lemma {:induction false} PaddingRuns(m: Machine, n: nat)
    requires StackInside(m)
    ensures Run(m, Nops(n)) == Ok(m)
    decreases n
  {
    if n > 0 {
      assert Nops(n)[1..] == Nops(n - 1);
      PaddingRuns(m, n - 1);
    }
  }

  /** From nothing, a whole document builds exactly its tree, and leaves no node open. */
  lemma DocumentIsBuilt(before: nat, t: Tree, after: nat)
    ensures Run(EMPTY, Document(before, t, after)) == Ok(Machine(Layout(t, 0, None), []))
  {
    var begun := Machine([Record(t.name, None, [], [])], [0]);
    ItemsAreBuilt(begun, t.items);
    RunFlatten(EMPTY, t, begun, AfterItems(begun, t.items));
    var built := Machine(Layout(t, 0, None), []);
    assert AfterItems(begun, t.items).nodes == built.nodes;
    PaddingRuns(EMPTY, before);
    PaddingRuns(built, after);
    RunSplits(EMPTY, Nops(before) + Flatten(t), Nops(after));
    RunSplits(EMPTY, Nops(before), Flatten(t));
  }

  // Soundness: everything built is a flattened tree ------------------------------

  ghost predicate Closes(m: Machine, ts: seq<Token>)
    requires StackInside(m)
  {
    m.stack != [] && Run(m, ts).Ok? && |Run(m, ts).value.stack| < |m.stack|
  }

  /** A node among the items: what remains after it still closes the outer node. */
  lemma NodeThenRest(m: Machine, name: seq<byte>, inner: seq<Item>, tail: seq<Token>, after: seq<Token>)
    requires StackInside(m) && Closes(m, [Begin(name)] + tail) && tail == FlattenItems(inner) + [End] + after
    ensures [Begin(name)] + tail == Flatten(Tree(name, inner)) + after
    ensures Closes(AfterItem(m, Node(Tree(name, inner))), after)
  {
    var t := Tree(name, inner);
    assert [Begin(name)] + tail == Flatten(t) + after;
    NodeIsBuilt(m, t);
    RunSplits(m, Flatten(t), after);
  }

  lemma NoItems()
    ensures FlattenItems([]) == []
  {
  }

  lemma NodeIsItem(t: Tree)
    ensures FlattenItem(Node(t)) == Flatten(t)
  {
  }

  lemma OtherItem(m: Machine, ts: seq<Token>) returns (item: Item)
    requires StackInside(m) && ts != [] && Step(m, ts[0]).Ok? && !ts[0].Begin? && ts[0] != End
    ensures FlattenItem(item) == [ts[0]]
  {
    item := if ts[0].Prop? then Entry(ts[0].name, ts[0].value) else Padding;
  }

  lemma TailCloses(m: Machine, ts: seq<Token>)
    requires StackInside(m) && Closes(m, ts)
    ensures ts != [] && Step(m, ts[0]).Ok?
    ensures ts[0] != End ==> Closes(Step(m, ts[0]).value, ts[1..])
  {
  }

  lemma ItemThenRest(item: Item, items: seq<Item>, ts: seq<Token>, rest: seq<Token>) returns (all: seq<Item>)
    requires ts != [] && FlattenItem(item) == [ts[0]] && ts[1..] == FlattenItems(items) + [End] + rest
    ensures ts == FlattenItems(all) + [End] + rest
  {
    all := Prepended(item, items);
    assert ts == [ts[0]] + ts[1..];
  }

  /** Tokens that close the node on top of the stack start with its items. */
  lemma {:induction false} ItemsBeforeEnd(m: Machine, ts: seq<Token>) returns (items: seq<Item>, rest: seq<Token>)
    requires StackInside(m) && Closes(m, ts)
    ensures ts == FlattenItems(items) + [End] + rest
    decreases |ts|
  {
    hide Closes, Run, Step, AfterItem, FlattenItems, FlattenItem, Flatten;
    TailCloses(m, ts);
    var next := Step(m, ts[0]).value;
    var tail := ts[1..];
    assert ts == [ts[0]] + tail;
    if ts[0] == End {
      items, rest := [], tail;
      NoItems();
    } else if ts[0].Begin? {
      var inner, after := ItemsBeforeEnd(next, tail);
      NodeThenRest(m, ts[0].name, inner, tail, after);
      items, rest := ItemsBeforeEnd(AfterItem(m, Node(Tree(ts[0].name, inner))), after);
      NodeIsItem(Tree(ts[0].name, inner));
      items := Prepended(Node(Tree(ts[0].name, inner)), items);
    } else {
      items, rest := ItemsBeforeEnd(next, tail);
      var item := OtherItem(m, ts);
      items := ItemThenRest(item, items, ts, rest);
    }
  }

  lemma Prepended(item: Item, items: seq<Item>) returns (all: seq<Item>)
    ensures all == [item] + items && FlattenItems(all) == FlattenItem(item) + FlattenItems(items)
  {
    all := [item] + items;
    assert all[1..] == items;
  }

  /** Once the root is closed, only padding can follow. */
  lemma {:induction false} OnlyPaddingAfterRoot(m: Machine, ts: seq<Token>)
    requires m.stack == [] && m.nodes != [] && Run(m, ts).Ok?
    ensures ts == Nops(|ts|)
    decreases |ts|
  {
    if ts != [] {
      assert ts[0] == Nop;
      OnlyPaddingAfterRoot(m, ts[1..]);
      assert ts == [ts[0]] + ts[1..];
    }
  }

  lemma RootThenPadding(t: Tree, ts: seq<Token>, rest: seq<Token>)
    requires ts != [] && ts[0] == Begin(t.name) && ts[1..] == FlattenItems(t.items) + [End] + rest
    requires Run(EMPTY, ts).Ok?
    ensures ts == Document(0, t, |rest|)
  {
    hide Run, FlattenItems, Layout;
    assert ts == [ts[0]] + ts[1..];
    assert ts == Flatten(t) + rest;
    DocumentIsBuilt(0, t, 0);
    assert Document(0, t, 0) == Flatten(t);
    RunSplits(EMPTY, Flatten(t), rest);
    OnlyPaddingAfterRoot(Machine(Layout(t, 0, None), []), rest);
  }

  /** If the machine, started on nothing, ends with a root and no open node, its
      tokens are a document. */
  lemma {:induction false} BuiltIsDocument(ts: seq<Token>) returns (before: nat, t: Tree, after: nat)
    requires Run(EMPTY, ts).Ok? && Run(EMPTY, ts).value.stack == [] && Run(EMPTY, ts).value.nodes != []
    ensures ts == Document(before, t, after)
    decreases |ts|
  {
    if ts[0] == Nop {
      before, t, after := BuiltIsDocument(ts[1..]);
      assert Nops(before + 1) == [Nop] + Nops(before);
      before := before + 1;
      assert ts == [Nop] + ts[1..];
    } else {
      var begun := Machine([Record(ts[0].name, None, [], [])], [0]);
      var items, rest := ItemsBeforeEnd(begun, ts[1..]);
      before, t, after := 0, Tree(ts[0].name, items), |rest|;
      RootThenPadding(t, ts, rest);
    }
  }
}
