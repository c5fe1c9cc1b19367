/** What the list operations of cJSON.c do to the value that an array's items hold. */
module JsonEdits {
  import opened JsonText
  import opened JsonItems
  import opened JsonTrees
  import opened ChildLists

  ghost function Roots(trees: seq<Tree>): (roots: seq<Item>)
    ensures |roots| == |trees| && forall i :: 0 <= i < |trees| ==> roots[i] == trees[i].root
  {
    seq(|trees|, i requires 0 <= i < |trees| => trees[i].root)
  }

  /** Trees within a region that share no item and hold values, whatever their links. */
  ghost predicate Forest(trees: seq<Tree>, region: set<Item>, values: seq<Json>)
    reads region
  {
    && |trees| == |values|
    && (forall i :: 0 <= i < |trees| ==> trees[i].root in region && trees[i].below <= region)
    && (forall i, j :: 0 <= i < j < |trees| ==> trees[i].Nodes() !! trees[j].Nodes())
    && (forall i :: 0 <= i < |trees| ==> Holds(trees[i], values[i]))
  }

  /** An array is a forest whose roots are the list below the array's item. */
  lemma ArrayIsList(tree: Tree, items: seq<Json>)
    requires Holds(tree, Array(items))
    ensures IsList(tree.root, Roots(tree.children)) && Forest(tree.children, tree.below, items)
  {
    hide Holds;
    assert Listing(tree.children, tree.below, items) && Closed(tree.children, tree.below)
           && tree.root !in tree.below && tree.root.child == FirstRoot(tree.children) by {
      ArrayHeld(tree, items);
    }
    var trees := tree.children;
    forall i, j | 0 <= i < j < |trees| ensures Roots(trees)[i] != Roots(trees)[j] {
      assert trees[i].root in trees[i].Nodes() && trees[j].root in trees[j].Nodes();
    }
  }

  lemma ListIsArray(tree: Tree, items: seq<Json>)
    requires tree.root.kind == ArrayKind && tree.root !in tree.below
    requires IsList(tree.root, Roots(tree.children)) && Forest(tree.children, tree.below, items)
    ensures Holds(tree, Array(items))
  {
    hide Holds;
    ArrayListHolds(tree, items);
  }

  /** Everything an item holds apart from its links to neighbours. */
  twostate predicate SameContent(item: Item)
    reads item
  {
    && item.kind == old(item.kind) && item.name == old(item.name) && item.valueString == old(item.valueString)
    && item.valueInt == old(item.valueInt) && item.valueDouble == old(item.valueDouble)
    && item.child == old(item.child)
  }

  datatype Woods = Woods(trees: seq<Tree>, region: set<Item>, values: seq<Json>)

  /** Changing links between roots keeps the forest. */
  twostate lemma ForestKeeps(w: Woods)
    requires old(Forest(w.trees, w.region, w.values))
    requires forall i :: 0 <= i < |w.trees| ==> unchanged(w.trees[i].below) && SameContent(w.trees[i].root)
    ensures Forest(w.trees, w.region, w.values)
  {
    hide Holds;
    forall i | 0 <= i < |w.trees| ensures Holds(w.trees[i], w.values[i]) {
      assert old(Holds(w.trees[i], w.values[i]));
      HoldsKeeps(Claim(w.trees[i], w.values[i]));
    }
  }

  lemma RootsConcat(a: seq<Tree>, b: seq<Tree>)
    ensures Roots(a + b) == Roots(a) + Roots(b)
  {
  }

  lemma RootsSlice(trees: seq<Tree>, from: nat, to: nat)
    requires from <= to <= |trees|
    ensures Roots(trees[from..to]) == Roots(trees)[from..to]
  {
  }

  /** Sequences without their k-th element, and with one more in front of it. */
  function Without<T>(s: seq<T>, k: nat): seq<T>
    requires k < |s|
  {
    s[..k] + s[k + 1..]
  }

  function With<T>(s: seq<T>, k: nat, x: T): seq<T>
    requires k <= |s|
  {
    s[..k] + [x] + s[k..]
  }

  lemma RootsWithout(trees: seq<Tree>, k: nat)
    requires k < |trees|
    ensures Roots(Without(trees, k)) == Roots(trees)[..k] + Roots(trees)[k + 1..]
  {
    RootsConcat(trees[..k], trees[k + 1..]);
    RootsSlice(trees, 0, k);
    RootsSlice(trees, k + 1, |trees|);
  }

  lemma RootsWith(trees: seq<Tree>, k: nat, tree: Tree)
    requires k <= |trees|
    ensures Roots(With(trees, k, tree)) == Roots(trees)[..k] + [tree.root] + Roots(trees)[k..]
  {
    RootsConcat(trees[..k] + [tree], trees[k..]);
    RootsConcat(trees[..k], [tree]);
    RootsSlice(trees, 0, k);
    RootsSlice(trees, k, |trees|);
  }

  lemma ForestWithout(trees: seq<Tree>, region: set<Item>, values: seq<Json>, k: nat)
    requires Forest(trees, region, values) && k < |trees|
    ensures Forest(Without(trees, k), region - trees[k].Nodes(), Without(values, k))
  {
    hide Holds;
    var rest := Without(trees, k);
    forall i | 0 <= i < |rest|
      ensures rest[i].root in region - trees[k].Nodes() && rest[i].below <= region - trees[k].Nodes()
    {
      var j := if i < k then i else i + 1;
      assert rest[i] == trees[j] && trees[j].root in trees[j].Nodes();
    }
  }

  lemma ForestWith(trees: seq<Tree>, region: set<Item>, values: seq<Json>, k: nat, tree: Tree, v: Json)
    requires Forest(trees, region, values) && k <= |trees|
    requires Holds(tree, v) && tree.Nodes() !! region
    ensures Forest(With(trees, k, tree), region + tree.Nodes(), With(values, k, v))
  {
    hide Holds;
    var grown := With(trees, k, tree);
    assert forall i :: 0 <= i < |grown| ==>
      grown[i] == if i < k then trees[i] else if i == k then tree else trees[i - 1];
    assert forall i :: 0 <= i < |trees| ==> trees[i].Nodes() <= region;
  }

  /** cJSON_DetachItemFromArray: two trees, the element and the array without it. */
  method DetachFromArray(parent: Item, which: int, ghost tree: Tree, ghost items: seq<Json>)
    returns (detached: Item?, ghost part: Tree, ghost rest: Tree)
    requires tree.root == parent && Holds(tree, Array(items))
    modifies parent, tree.below
    ensures detached != null <==> 0 <= which < |items|
    ensures detached == null ==> rest == tree && Holds(tree, Array(items))
    ensures detached != null ==>
              && part.root == detached && Holds(part, items[which])
              && rest.root == parent && Holds(rest, Array(Without(items, which)))
              && part.Nodes() !! rest.Nodes() && part.Nodes() + rest.Nodes() == tree.Nodes()
  {
    hide Holds, Forest, IsList;
    ArrayIsList(tree, items);
    ghost var trees, region := tree.children, tree.below;
    RootsAre(tree, items);
    detached := DetachItemFromArray(parent, which, Roots(trees));
    part, rest := tree, tree;
    ForestKeeps(Woods(trees, region, items));
    if detached != null {
      part, rest := trees[which], Tree(parent, region - trees[which].Nodes(), Without(trees, which));
      ForestWithout(trees, region, items, which);
      RootsWithout(trees, which);
      ListIsArray(rest, Without(items, which));
      ElementHolds(trees, region, items, which);
    } else {
      ListIsArray(tree, items);
    }
  }

  /** What the roots of an array's trees are, for the frame of a list operation. */
  lemma RootsAre(tree: Tree, items: seq<Json>)
    requires Holds(tree, Array(items))
    ensures tree.root.kind == ArrayKind && tree.root !in tree.below && |tree.children| == |items|
    ensures forall r :: r in Roots(tree.children) ==> r in tree.below
    ensures forall i :: 0 <= i < |tree.children| ==>
              tree.children[i].below <= tree.below && tree.root !in tree.children[i].below
              && forall r :: r in Roots(tree.children) ==> r !in tree.children[i].below
  {
    hide Holds;
    ArrayHeld(tree, items);
    ArrayIsList(tree, items);
    var trees := tree.children;
    forall i, j | 0 <= i < |trees| && 0 <= j < |trees| ensures trees[j].root !in trees[i].below {
      assert trees[j].root in trees[j].Nodes();
      assert Holds(trees[i], items[i]);
      RootNotBelow(trees[i], items[i]);
    }
  }

  lemma RootNotBelow(tree: Tree, v: Json)
    requires Holds(tree, v)
    ensures tree.root !in tree.below
  {
  }

  lemma ElementHolds(trees: seq<Tree>, region: set<Item>, items: seq<Json>, k: nat)
    requires Forest(trees, region, items) && k < |trees|
    ensures Holds(trees[k], items[k]) && trees[k].Nodes() <= region && |trees| == |items|
  {
    hide Holds;
  }

  lemma WithAtEnd<T>(s: seq<T>, x: T)
    ensures With(s, |s|, x) == s + [x]
  {
  }

  /** cJSON_AddItemToArray: the value goes behind the others, if the new item's own next link was null
      or the array was empty. */
  method AppendToArray(parent: Item, item: Item, ghost tree: Tree, ghost items: seq<Json>,
                       ghost newTree: Tree, ghost w: Json)
    returns (ok: bool, ghost grown: Tree)
    requires tree.root == parent && Holds(tree, Array(items))
    requires newTree.root == item && Holds(newTree, w) && newTree.Nodes() !! tree.Nodes()
    requires items == [] || item.next == null
    modifies parent, item, tree.below
    ensures ok && grown.root == parent && Holds(grown, Array(items + [w]))
    ensures grown.Nodes() == tree.Nodes() + newTree.Nodes()
  {
    hide Holds, Forest, IsList;
    ArrayIsList(tree, items);
    RootsAre(tree, items);
    ghost var trees, region := tree.children, tree.below;
    RootNotBelow(newTree, w);
    assert item in newTree.Nodes() && parent in tree.Nodes();
    ok := AddItemToArray(parent, item, Roots(trees));
    ForestKeeps(Woods(trees, region, items));
    HoldsKeeps(Claim(newTree, w));
    grown := Tree(parent, region + newTree.Nodes(), With(trees, |trees|, newTree));
    ForestWith(trees, region, items, |trees|, newTree, w);
    RootsWith(trees, |trees|, newTree);
    WithAtEnd(Roots(trees), item);
    WithAtEnd(items, w);
    ListIsArray(grown, With(items, |trees|, w));
  }

  /** cJSON_InsertItemInArray in front of an element. */
  method InsertIntoArray(parent: Item, which: nat, item: Item, ghost tree: Tree, ghost items: seq<Json>,
                         ghost newTree: Tree, ghost w: Json)
    returns (ok: bool, ghost grown: Tree)
    requires tree.root == parent && Holds(tree, Array(items)) && which < |items|
    requires newTree.root == item && Holds(newTree, w) && newTree.Nodes() !! tree.Nodes()
    modifies parent, item, tree.below
    ensures ok && grown.root == parent && Holds(grown, Array(With(items, which, w)))
    ensures grown.Nodes() == tree.Nodes() + newTree.Nodes()
  {
    hide Holds, Forest, IsList;
    ArrayIsList(tree, items);
    RootsAre(tree, items);
    ghost var trees, region := tree.children, tree.below;
    RootNotBelow(newTree, w);
    assert item in newTree.Nodes() && parent in tree.Nodes();
    ok := InsertItemInArray(parent, which, item, Roots(trees));
    ForestKeeps(Woods(trees, region, items));
    HoldsKeeps(Claim(newTree, w));
    grown := Tree(parent, region + newTree.Nodes(), With(trees, which, newTree));
    ForestWith(trees, region, items, which, newTree, w);
    RootsWith(trees, which, newTree);
    ListIsArray(grown, With(items, which, w));
  }

  /** cJSON_ReplaceItemInArray: the new value stands where the old one stood. */
  method ReplaceInArray(parent: Item, which: nat, item: Item, ghost tree: Tree, ghost items: seq<Json>,
                        ghost newTree: Tree, ghost w: Json)
    returns (ok: bool, ghost changed: Tree)
    requires tree.root == parent && Holds(tree, Array(items)) && which < |items|
    requires newTree.root == item && Holds(newTree, w) && newTree.Nodes() !! tree.Nodes()
    modifies parent, item, tree.below
    ensures ok && changed.root == parent && Holds(changed, Array(items[which := w]))
    ensures which < |tree.children|
    ensures changed.Nodes() == tree.Nodes() - tree.children[which].Nodes() + newTree.Nodes()
  {
    hide Holds, Forest, IsList;
    ArrayIsList(tree, items);
    RootsAre(tree, items);
    ghost var trees, region := tree.children, tree.below;
    RootNotBelow(newTree, w);
    assert item in newTree.Nodes() && parent in tree.Nodes();
    ok := ReplaceItemInArray(parent, which, item, Roots(trees));
    ForestKeeps(Woods(trees, region, items));
    HoldsKeeps(Claim(newTree, w));
    ElementHolds(trees, region, items, which);
    ForestWithout(trees, region, items, which);
    ghost var left := region - trees[which].Nodes();
    changed := Tree(parent, left + newTree.Nodes(), trees[which := newTree]);
    ForestWith(Without(trees, which), left, Without(items, which), which, newTree, w);
    WithInPlace(trees, which, newTree);
    WithInPlace(items, which, w);
    RootsInPlace(trees, which, newTree);
    ListIsArray(changed, items[which := w]);
  }

  lemma WithInPlace<T>(s: seq<T>, k: nat, x: T)
    requires k < |s|
    ensures With(Without(s, k), k, x) == s[k := x]
  {
  }

  lemma RootsInPlace(trees: seq<Tree>, k: nat, tree: Tree)
    requires k < |trees|
    ensures Roots(trees[k := tree]) == Roots(trees)[k := tree.root]
  {
  }
}
