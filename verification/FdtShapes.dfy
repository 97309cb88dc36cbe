/** Records and tokens of trees that are built up item by item. */
module FdtShapes {
  import opened Bytes
  import opened FdtLinks
  import opened FdtTokens
  import opened FdtTree
  import opened Wrappers

  /** What a list of items comes to: its records, children, properties and tokens. */
  ghost predicate ItemsAre(items: seq<Item>, next: nat, owner: nat, records: seq<Record>, children: seq<nat>,
                           properties: seq<Property>, tokens: seq<Token>) {
    && LayoutItems(items, next, owner) == records && ChildrenOf(items, next) == children
    && Written(items) == properties && FlattenItems(items) == tokens
  }

  ghost predicate TreeIs(t: Tree, base: nat, parent: Option<nat>, records: seq<Record>, tokens: seq<Token>) {
    Layout(t, base, parent) == records && Flatten(t) == tokens
  }

  lemma NoItemsAre(next: nat, owner: nat)
    ensures ItemsAre([], next, owner, [], [], [], [])
  {
  }

  lemma EntryFirst(items: seq<Item>, name: seq<byte>, value: seq<byte>, rest: seq<Item>, next: nat, owner: nat,
                   records: seq<Record>, children: seq<nat>, properties: seq<Property>, tokens: seq<Token>)
    requires items == [Entry(name, value)] + rest && ItemsAre(rest, next, owner, records, children, properties, tokens)
    ensures ItemsAre(items, next, owner, records, children, [Property(name, value)] + properties,
                     [Prop(name, value)] + tokens)
  {
    assert items[1..] == rest;
  }

  lemma TreeFirst(items: seq<Item>, t: Tree, rest: seq<Item>, next: nat, owner: nat, first: seq<Record>,
                  flat: seq<Token>, records: seq<Record>, children: seq<nat>, properties: seq<Property>,
                  tokens: seq<Token>)
    requires items == [Node(t)] + rest && TreeIs(t, next, Some(owner), first, flat)
    requires ItemsAre(rest, next + |first|, owner, records, children, properties, tokens)
    ensures ItemsAre(items, next, owner, first + records, [next] + children, properties, flat + tokens)
  {
    assert items[1..] == rest && SizeItem(items[0]) == Size(t) == |first|;
  }

  lemma TreeOfItems(t: Tree, base: nat, parent: Option<nat>, records: seq<Record>, children: seq<nat>,
                    properties: seq<Property>, tokens: seq<Token>)
    requires ItemsAre(t.items, base + 1, base, records, children, properties, tokens) && DistinctNames(properties)
    ensures TreeIs(t, base, parent, [Record(t.name, parent, properties, children)] + records,
                   [Begin(t.name)] + tokens + [End])
  {
    hide LayoutItems, ChildrenOf, Written, FlattenItems;
    GrownIs(Record(t.name, parent, [], []), t.items, base + 1);
    assert [] + Written(t.items) == Written(t.items) && [] + children == children;
    DistinctPropertiesKept(t.items, []);
  }

  // Several properties ---------------------------------------------------------------

  function Entries(ps: seq<Property>): seq<Item> {
    if ps == [] then [] else [Entry(ps[0].name, ps[0].value)] + Entries(ps[1..])
  }

  function PropTokens(ps: seq<Property>): (ts: seq<Token>)
    ensures |ts| == |ps| && forall i :: 0 <= i < |ps| ==> ts[i] == Prop(ps[i].name, ps[i].value)
  {
    seq(|ps|, i requires 0 <= i < |ps| => Prop(ps[i].name, ps[i].value))
  }

  lemma {:induction false} EntriesFirst(items: seq<Item>, ps: seq<Property>, rest: seq<Item>, next: nat, owner: nat,
                                        records: seq<Record>, children: seq<nat>, properties: seq<Property>,
                                        tokens: seq<Token>)
    requires items == Entries(ps) + rest && ItemsAre(rest, next, owner, records, children, properties, tokens)
    ensures ItemsAre(items, next, owner, records, children, ps + properties, PropTokens(ps) + tokens)
    decreases |ps|
  {
    hide ItemsAre;
    if ps == [] {
      assert items == rest && [] + properties == properties && PropTokens(ps) + tokens == tokens;
    } else {
      var (p, tail) := (ps[0], Entries(ps[1..]) + rest);
      EntriesFirst(tail, ps[1..], rest, next, owner, records, children, properties, tokens);
      assert items == [Entry(p.name, p.value)] + tail;
      EntryFirst(items, p.name, p.value, tail, next, owner, records, children, ps[1..] + properties,
                 PropTokens(ps[1..]) + tokens);
      assert [Property(p.name, p.value)] + (ps[1..] + properties) == ps + properties;
      assert [Prop(p.name, p.value)] + (PropTokens(ps[1..]) + tokens) == PropTokens(ps) + tokens;
    }
  }

  /** A node of properties alone. */
  lemma Leaf(t: Tree, ps: seq<Property>, base: nat, parent: Option<nat>)
    requires t.items == Entries(ps) && DistinctNames(ps)
    ensures TreeIs(t, base, parent, [Record(t.name, parent, ps, [])], [Begin(t.name)] + PropTokens(ps) + [End])
  {
    hide ItemsAre, TreeIs, Entries, DistinctNames;
    NoItemsAre(base + 1, base);
    assert t.items == Entries(ps) + [];
    EntriesFirst(t.items, ps, [], base + 1, base, [], [], [], []);
    assert ps + [] == ps && PropTokens(ps) + [] == PropTokens(ps);
    TreeOfItems(t, base, parent, [], [], ps, PropTokens(ps));
    assert [Record(t.name, parent, ps, [])] + [] == [Record(t.name, parent, ps, [])];
  }

  /** A node of properties and one child. */
  lemma OneChild(t: Tree, ps: seq<Property>, base: nat, parent: Option<nat>, child: Tree, first: seq<Record>,
                 flat: seq<Token>)
    requires t.items == Entries(ps) + [Node(child)] && DistinctNames(ps)
    requires TreeIs(child, base + 1, Some(base), first, flat)
    ensures TreeIs(t, base, parent, [Record(t.name, parent, ps, [base + 1])] + first,
                   [Begin(t.name)] + (PropTokens(ps) + flat) + [End])
  {
    hide ItemsAre, TreeIs, Entries, DistinctNames;
    NoItemsAre(base + 1 + |first|, base);
    assert [Node(child)] == [Node(child)] + [];
    TreeFirst([Node(child)], child, [], base + 1, base, first, flat, [], [], [], []);
    assert first + [] == first && [base + 1] + [] == [base + 1] && flat + [] == flat;
    EntriesFirst(t.items, ps, [Node(child)], base + 1, base, first, [base + 1], [], flat);
    assert ps + [] == ps;
    TreeOfItems(t, base, parent, first, [base + 1], ps, PropTokens(ps) + flat);
  }

  /** A node of two children. */
  lemma TwoChildren(t: Tree, base: nat, parent: Option<nat>, a: Tree, b: Tree, first: seq<Record>, flat: seq<Token>,
                    second: seq<Record>, more: seq<Token>)
    requires t.items == [Node(a), Node(b)] && TreeIs(a, base + 1, Some(base), first, flat)
    requires TreeIs(b, base + 1 + |first|, Some(base), second, more)
    ensures TreeIs(t, base, parent, [Record(t.name, parent, [], [base + 1, base + 1 + |first|])] + (first + second),
                   [Begin(t.name)] + (flat + more) + [End])
  {
    hide ItemsAre, TreeIs;
    var later := base + 1 + |first|;
    NoItemsAre(later + |second|, base);
    TreeFirst([Node(b)], b, [], later, base, second, more, [], [], [], []);
    assert second + [] == second && [later] + [] == [later] && more + [] == more;
    assert t.items == [Node(a)] + [Node(b)];
    TreeFirst(t.items, a, [Node(b)], base + 1, base, first, flat, second, [later], [], more);
    assert [base + 1] + [later] == [base + 1, later];
    TreeOfItems(t, base, parent, first + second, [base + 1, later], [], flat + more);
  }

  // Names of ASCII letters -------------------------------------------------------------

  predicate Letters(s: seq<byte>) {
    forall i :: 0 <= i < |s| ==> 0 < s[i] < 0x80
  }

  predicate LetterName(t: Token) {
    t.Begin? || t.Prop? ==> Letters(t.name)
  }

  predicate LetterNames(ts: seq<Token>) {
    forall i :: 0 <= i < |ts| ==> LetterName(ts[i])
  }

  lemma LetterNamesJoined(a: seq<Token>, b: seq<Token>)
    requires LetterNames(a) && LetterNames(b)
    ensures LetterNames(a + b)
  {
  }
}
