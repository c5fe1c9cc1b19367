/** cJSON items in memory (cJSON.h): linked siblings, a pointer to the first child, and which JSON
    value the items of a tree hold. */
module JsonTrees {
  import opened Bytes
  import opened Options
  import opened JsonNumbers
  import opened JsonText
  import opened JsonItems

  /** An item, the items below it, and the trees of its children. */
  datatype Tree = Tree(root: Item, below: set<Item>, children: seq<Tree>)
  {
    ghost function Nodes(): set<Item> { {root} + below }
  }

  /** A string that was never set prints as the empty one. */
  function Text(s: Option<seq<byte>>): seq<byte> { if s.None? then [] else s.value }

  /** C's conversion of a double to int. */
  function TowardsZero(d: real): int { if d >= 0.0 then d.Floor else -(-d).Floor }

  /** The integer kept beside a number: saturated. */
  function Saturated(d: real): int {
    if d >= INT_MAX as real then INT_MAX else if d <= INT_MIN as real then INT_MIN else TowardsZero(d)
  }

  /** The kept integer: the limits of an int outside of them, and towards zero between them. */
  lemma SaturatedIsNearest(d: real)
    ensures d >= 2147483647.0 ==> Saturated(d) == 2147483647
    ensures d <= -2147483648.0 ==> Saturated(d) == -2147483648
    ensures 0.0 <= d < 2147483647.0 ==> 0.0 <= Saturated(d) as real <= d < Saturated(d) as real + 1.0
    ensures -2147483648.0 < d <= 0.0 ==> Saturated(d) as real - 1.0 < d <= Saturated(d) as real <= 0.0
  {
  }

  function ValuesOf(members: seq<Member>): (values: seq<Json>)
    ensures |values| == |members| && forall i :: 0 <= i < |members| ==> values[i] == members[i].value
  {
    if members == [] then [] else [members[0].value] + ValuesOf(members[1..])
  }

  ghost function FirstRoot(trees: seq<Tree>): Item? { if trees == [] then null else trees[0].root }

  ghost function LastRoot(trees: seq<Tree>): Item? { if trees == [] then null else trees[|trees| - 1].root }

  /** Trees within a region that share no item, linked one after the other. */
  ghost predicate Siblings(trees: seq<Tree>, region: set<Item>)
    reads region
  {
    && (forall i :: 0 <= i < |trees| ==> trees[i].root in region && trees[i].below <= region)
    && (forall i, j :: 0 <= i < j < |trees| ==> trees[i].Nodes() !! trees[j].Nodes())
    && (forall i :: 0 < i < |trees| ==>
          trees[i - 1].root.next == trees[i].root && trees[i].root.prev == trees[i - 1].root)
  }

  /** The last one ends the list, and the first one points back to it. */
  ghost predicate Closed(trees: seq<Tree>, region: set<Item>)
    reads region
  {
    && (forall i :: 0 <= i < |trees| ==> trees[i].root in region)
    && (trees != [] ==> trees[|trees| - 1].root.next == null && trees[0].root.prev == trees[|trees| - 1].root)
  }

  ghost predicate Listing(trees: seq<Tree>, region: set<Item>, values: seq<Json>)
    reads region
    decreases trees
  {
    && |trees| == |values| && Siblings(trees, region)
    && forall i :: 0 <= i < |trees| ==> Holds(trees[i], values[i])
  }

  ghost predicate Named(trees: seq<Tree>, region: set<Item>, members: seq<Member>)
    reads region
  {
    && |trees| == |members|
    && (forall i :: 0 <= i < |trees| ==> trees[i].root in region)
    && forall i :: 0 <= i < |trees| ==> Text(trees[i].root.name) == members[i].key
  }

  /** The root's own fields for a value. */
  ghost predicate Fields(item: Item, v: Json)
    reads item
  {
    match v
    case Null => item.kind == NullKind
    case False => item.kind == FalseKind
    case True => item.kind == TrueKind
    case Number(d) => item.kind == NumberKind && item.valueDouble == d && item.valueInt == Saturated(d)
    case String(text) => item.kind == StringKind && Text(item.valueString) == text
    case Array(_) => item.kind == ArrayKind
    case Object(_) => item.kind == ObjectKind
  }

  /** What the items below the root hold. */
  ghost predicate ChildrenHold(tree: Tree, v: Json)
    reads tree.below
    decreases tree, 0
  {
    match v
    case Array(items) => Listing(tree.children, tree.below, items) && Closed(tree.children, tree.below)
    case Object(members) =>
      && Listing(tree.children, tree.below, ValuesOf(members)) && Closed(tree.children, tree.below)
      && Named(tree.children, tree.below, members)
    case _ => tree.children == []
  }

  /** The items of a tree hold a value: the kinds, strings and numbers, the names of members, and
      below every array and object a closed list of the right items in the right order. */
  ghost predicate Holds(tree: Tree, v: Json)
    reads tree.root, tree.below
    decreases tree, 1
  {
    && Fields(tree.root, v)
    && tree.root !in tree.below
    && tree.root.child == FirstRoot(tree.children)
    && ChildrenHold(tree, v)
  }

  /** An item's kind tells the kind of its value, and a string that was never set is the empty one. */
  lemma KindTellsValue(tree: Tree, v: Json)
    requires Holds(tree, v)
    ensures match tree.root.kind
            case NullKind => v == Null
            case FalseKind => v == False
            case TrueKind => v == True
            case NumberKind => v == Number(tree.root.valueDouble)
            case StringKind => v == String(if tree.root.valueString.Some? then tree.root.valueString.value else [])
            case ArrayKind => v.Array? && |v.items| == |tree.children|
            case ObjectKind => v.Object? && |v.members| == |tree.children|
            case NoKind => false
  {
    hide Saturated;
    assert Fields(tree.root, v) && ChildrenHold(tree, v);
    match v
    case Array(items) => assert Listing(tree.children, tree.below, items);
    case Object(members) => assert Listing(tree.children, tree.below, ValuesOf(members));
    case _ =>
  }

  lemma LeafHolds(item: Item, v: Json)
    requires Fields(item, v) && item.child == null && !v.Array? && !v.Object?
    ensures Holds(Tree(item, {}, []), v)
  {
  }

  /** The trees of members: their values, and their names. */
  ghost predicate MemberListing(trees: seq<Tree>, region: set<Item>, members: seq<Member>)
    reads region
  {
    Listing(trees, region, ValuesOf(members)) && Named(trees, region, members)
  }

  /** A closed list below an item makes it hold an array, and with names an object. */
  lemma ArrayListHolds(tree: Tree, items: seq<Json>)
    requires tree.root.kind == ArrayKind && tree.root !in tree.below && tree.root.child == FirstRoot(tree.children)
    requires Listing(tree.children, tree.below, items) && Closed(tree.children, tree.below)
    ensures Holds(tree, Array(items))
  {
  }

  lemma ObjectListHolds(tree: Tree, members: seq<Member>)
    requires tree.root.kind == ObjectKind && tree.root !in tree.below && tree.root.child == FirstRoot(tree.children)
    requires MemberListing(tree.children, tree.below, members) && Closed(tree.children, tree.below)
    ensures Holds(tree, Object(members))
  {
  }

  /** And the other way round. */
  lemma ArrayHeld(tree: Tree, items: seq<Json>)
    requires Holds(tree, Array(items))
    ensures Listing(tree.children, tree.below, items) && Closed(tree.children, tree.below)
    ensures tree.root.kind == ArrayKind && tree.root !in tree.below && tree.root.child == FirstRoot(tree.children)
  {
    hide Listing, Closed;
  }

  lemma ObjectHeld(tree: Tree, members: seq<Member>)
    requires Holds(tree, Object(members))
    ensures MemberListing(tree.children, tree.below, members) && Closed(tree.children, tree.below)
    ensures tree.root.kind == ObjectKind && tree.root !in tree.below && tree.root.child == FirstRoot(tree.children)
  {
    hide Listing, Closed, Named, ValuesOf;
  }

  /** Items hold one value. */
  lemma {:induction false} HoldsOneValue(tree: Tree, v: Json, w: Json)
    requires Holds(tree, v) && Holds(tree, w)
    ensures v == w
    decreases tree
  {
    hide Listing;
    match v {
      case Array(items) => ListingHoldsOnce(tree.children, tree.below, items, w.items);
      case Object(members) =>
        ListingHoldsOnce(tree.children, tree.below, ValuesOf(members), ValuesOf(w.members));
        MembersAre(members, w.members) by {
          assert forall i :: 0 <= i < |members| ==> members[i].key == w.members[i].key;
        }
      case _ =>
    }
  }

  lemma MembersAre(a: seq<Member>, b: seq<Member>)
    requires |a| == |b| && ValuesOf(a) == ValuesOf(b)
    requires forall i :: 0 <= i < |a| ==> a[i].key == b[i].key
    ensures a == b
  {
    forall i | 0 <= i < |a| ensures a[i] == b[i] {
      assert ValuesOf(a)[i] == ValuesOf(b)[i];
    }
  }

  lemma {:induction false} ListingHoldsOnce(trees: seq<Tree>, region: set<Item>, values: seq<Json>, others: seq<Json>)
    requires Listing(trees, region, values) && Listing(trees, region, others)
    ensures values == others
    decreases trees
  {
    hide Holds;
    forall i | 0 <= i < |trees| ensures values[i] == others[i] {
      HoldsOneValue(trees[i], values[i], others[i]);
    }
  }

  datatype Claim = Claim(tree: Tree, value: Json)

  /** The links of the root are not part of what a tree holds. */
  twostate lemma HoldsKeeps(c: Claim)
    requires old(Holds(c.tree, c.value)) && unchanged(c.tree.below)
    requires c.tree.root.kind == old(c.tree.root.kind) && c.tree.root.valueString == old(c.tree.root.valueString)
    requires c.tree.root.valueInt == old(c.tree.root.valueInt)
    requires c.tree.root.valueDouble == old(c.tree.root.valueDouble)
    requires c.tree.root.child == old(c.tree.root.child)
    ensures Holds(c.tree, c.value)
  {
    hide ChildrenHold;
  }

  lemma ValuesOfPush(members: seq<Member>, m: Member)
    ensures ValuesOf(members + [m]) == ValuesOf(members) + [m.value]
  {
  }

  lemma ListingGrows(trees: seq<Tree>, region: set<Item>, values: seq<Json>, tree: Tree, v: Json)
    requires Listing(trees, region, values) && Holds(tree, v) && tree.Nodes() !! region
    requires trees != [] ==>
               trees[|trees| - 1].root.next == tree.root && tree.root.prev == trees[|trees| - 1].root
    ensures Listing(trees + [tree], region + tree.Nodes(), values + [v])
  {
    hide Holds, Siblings;
    SiblingsGrow(trees, region, tree);
    var more := trees + [tree];
    assert forall i :: 0 <= i < |more| ==> more[i] == if i < |trees| then trees[i] else tree;
  }

  lemma SiblingsGrow(trees: seq<Tree>, region: set<Item>, tree: Tree)
    requires Siblings(trees, region) && tree.Nodes() !! region
    requires trees != [] ==>
               trees[|trees| - 1].root.next == tree.root && tree.root.prev == trees[|trees| - 1].root
    ensures Siblings(trees + [tree], region + tree.Nodes())
  {
    var more := trees + [tree];
    forall i, j | 0 <= i < j < |more| ensures more[i].Nodes() !! more[j].Nodes() {
      assert trees[i].Nodes() <= region;
    }
  }

  lemma MembersGrow(trees: seq<Tree>, region: set<Item>, members: seq<Member>, tree: Tree, m: Member)
    requires MemberListing(trees, region, members)
    requires Holds(tree, m.value) && Text(tree.root.name) == m.key && tree.Nodes() !! region
    requires trees != [] ==>
               trees[|trees| - 1].root.next == tree.root && tree.root.prev == trees[|trees| - 1].root
    ensures MemberListing(trees + [tree], region + tree.Nodes(), members + [m])
  {
    hide Holds, ValuesOf;
    ValuesOfPush(members, m);
    ListingGrows(trees, region, ValuesOf(members), tree, m.value);
  }

  /** Links a new item behind the last one. */
  method Attach(ghost trees: seq<Tree>, ghost region: set<Item>, ghost values: seq<Json>, current: Item?, newItem: Item)
    requires Listing(trees, region, values) && newItem !in region
    requires current == LastRoot(trees)
    modifies newItem, current
    ensures Listing(trees, region, values)
    ensures newItem.child == old(newItem.child) && newItem.next == old(newItem.next)
    ensures forall i :: 0 <= i < |trees| ==> trees[i].root.name == old(trees[i].root.name)
    ensures current != null ==> current.next == newItem && newItem.prev == current
  {
    hide ChildrenHold, Fields;
    if current != null {
      current.next := newItem;
      newItem.prev := current;
      forall i | 0 <= i < |trees| ensures Holds(trees[i], values[i]) {
        assert old(Holds(trees[i], values[i]));
        assert trees[i].root in trees[i].Nodes() && current in trees[|trees| - 1].Nodes();
        HoldsKeeps(Claim(trees[i], values[i]));
      }
    }
  }

  method AttachMember(ghost trees: seq<Tree>, ghost region: set<Item>, ghost members: seq<Member>,
                      current: Item?, newItem: Item)
    requires MemberListing(trees, region, members) && newItem !in region
    requires current == LastRoot(trees)
    modifies newItem, current
    ensures MemberListing(trees, region, members)
    ensures newItem.child == old(newItem.child) && newItem.next == old(newItem.next)
    ensures current != null ==> current.next == newItem && newItem.prev == current
  {
    hide Holds, ValuesOf;
    Attach(trees, region, ValuesOf(members), current, newItem);
  }

  /** Points the head of a finished list back to its tail. */
  method CloseList(ghost trees: seq<Tree>, ghost region: set<Item>, ghost values: seq<Json>,
                   head: Item?, current: Item?)
    requires Listing(trees, region, values) && head == FirstRoot(trees) && current == LastRoot(trees)
    requires current != null ==> current.next == null
    modifies head
    ensures Listing(trees, region, values) && Closed(trees, region)
    ensures forall i :: 0 <= i < |trees| ==> trees[i].root.name == old(trees[i].root.name)
  {
    hide ChildrenHold, Fields;
    if head != null {
      head.prev := current;
      forall i | 0 <= i < |trees| ensures Holds(trees[i], values[i]) {
        assert old(Holds(trees[i], values[i]));
        assert trees[i].root in trees[i].Nodes() && head in trees[0].Nodes();
        HoldsKeeps(Claim(trees[i], values[i]));
      }
    }
  }

  method CloseMembers(ghost trees: seq<Tree>, ghost region: set<Item>, ghost members: seq<Member>,
                      head: Item?, current: Item?)
    requires MemberListing(trees, region, members) && head == FirstRoot(trees) && current == LastRoot(trees)
    requires current != null ==> current.next == null
    modifies head
    ensures MemberListing(trees, region, members) && Closed(trees, region)
  {
    hide Holds, ValuesOf;
    CloseList(trees, region, ValuesOf(members), head, current);
  }

  /** The links of a closed list lead from each tree to the next, and then to nothing. */
  lemma ListAt(trees: seq<Tree>, region: set<Item>, values: seq<Json>, i: nat)
    requires Listing(trees, region, values) && Closed(trees, region) && i < |trees|
    ensures |values| == |trees| && Holds(trees[i], values[i]) && trees[i].root in region
    ensures trees[i].root.next == FirstRoot(trees[i + 1..])
  {
    hide Holds;
  }

  lemma ListLength(trees: seq<Tree>, region: set<Item>, values: seq<Json>)
    requires Listing(trees, region, values)
    ensures |trees| == |values|
  {
    hide Holds;
  }

  lemma MemberListAt(trees: seq<Tree>, region: set<Item>, members: seq<Member>, i: nat)
    requires MemberListing(trees, region, members) && Closed(trees, region) && i < |trees|
    ensures |members| == |trees| && Holds(trees[i], members[i].value)
    ensures Text(trees[i].root.name) == members[i].key && trees[i].root.next == FirstRoot(trees[i + 1..])
  {
    hide Holds;
    ListAt(trees, region, ValuesOf(members), i);
  }
}
