/** The child list of a JSON array or object (code/include_linux/cjson/cJSON.c): a chain linked by
    next, whose prev links run backwards and whose first prev points to the last item. */
module ChildLists {
  import opened JsonItems

  /** items is what the chain under parent holds. */
  ghost predicate IsList(parent: Item, items: seq<Item>)
    reads parent, items
  {
    && parent !in items
    && (forall i, j :: 0 <= i < j < |items| ==> items[i] != items[j])
    && (items == [] ==> parent.child == null)
    && (items != [] ==>
          && parent.child == items[0]
          && items[0].prev == items[|items| - 1]
          && items[|items| - 1].next == null)
    && (forall i :: 0 <= i < |items| - 1 ==> items[i].next == items[i + 1])
    && (forall i :: 1 <= i < |items| ==> items[i].prev == items[i - 1])
  }

  /** A chain is the list of one sequence only. */
  lemma {:induction false} ListIsUnique(parent: Item, a: seq<Item>, b: seq<Item>, n: nat)
    requires IsList(parent, a) && IsList(parent, b)
    requires n <= |a| && n <= |b|
    ensures a[..n] == b[..n]
    ensures n == |a| <= |b| ==> a == b
    decreases n
  {
    if n > 0 {
      ListIsUnique(parent, a, b, n - 1);
      if n >= 2 {
        assert a[n - 2] == a[..n - 1][n - 2] == b[..n - 1][n - 2] == b[n - 2];
        assert a[n - 2].next == a[n - 1] && b[n - 2].next == b[n - 1];
      }
      assert a[n - 1] == b[n - 1];
      assert a[..n] == a[..n - 1] + [a[n - 1]] && b[..n] == b[..n - 1] + [b[n - 1]];
      assert n < |b| ==> b[n - 1].next == b[n];
    }
  }

  /** What a pointer gives access to. */
  function The(item: Item?): set<Item> { if item == null then {} else {item} }

  /** The links of the k-th item. */
  lemma LinksAt(parent: Item, items: seq<Item>, k: nat)
    requires IsList(parent, items) && k < |items|
    ensures items[k].next == if k + 1 < |items| then items[k + 1] else null
    ensures items[k].prev == if k > 0 then items[k - 1] else items[|items| - 1]
    ensures items[k] == parent.child <==> k == 0
  {
  }

  /** get_array_item */
  method GetArrayItem(parent: Item?, index: nat, ghost items: seq<Item>) returns (item: Item?)
    requires parent != null ==> IsList(parent, items)
    ensures item == if parent != null && index < |items| then items[index] else null
  {
    if parent == null {
      return null;
    }
    var current, left := parent.child, index;
    ghost var at: nat := 0;
    while current != null && left > 0
      invariant at + left == index && at <= |items|
      invariant current == if at < |items| then items[at] else null
      decreases left
    {
      left := left - 1;
      current := current.next;
      at := at + 1;
    }
    return current;
  }

  method SuffixObject(prev: Item, item: Item)
    modifies prev`next, item`prev
    ensures prev.next == item && item.prev == prev
  {
    prev.next := item;
    item.prev := prev;
  }

  /** add_item_to_array. Behind existing items it leaves item.next alone, so the chain ends at the
      new item exactly when that link was null before; and nothing keeps an item of the list from being
      added once more. */
  method AddItemToArray(parent: Item?, item: Item?, ghost items: seq<Item>) returns (ok: bool)
    requires parent != null ==> IsList(parent, items)
    modifies The(parent)`child, The(item)`next, The(item)`prev, items`next, items`prev
    ensures ok <==> parent != null && item != null && parent != item
    ensures ok ==>
              (IsList(parent, items + [item]) <==> items == [] || (item !in items && old(item.next) == null))
    ensures !ok && parent != null ==> IsList(parent, items)
  {
    if item == null || parent == null || parent == item {
      return false;
    }
    var child := parent.child;
    if child == null {
      parent.child := item;
      item.prev := item;
      item.next := null;
    } else {
      ghost var last := items[|items| - 1];
      assert child.prev == last;
      SuffixObject(child.prev, item);
      parent.child.prev := item;
      ghost var after := items + [item];
      assert after[|after| - 1] == item;
      assert forall i :: 0 <= i < |items| ==> after[i] == items[i];
      assert item in items ==> !Distinct(after);
    }
    return true;
  }

  /** An item that still points to another one: both appends succeed, and the array is no list of the two
      items. */
  method StaleLinkExample() returns (parent: Item, first: Item, item: Item, ok: bool)
    ensures ok && !IsList(parent, [first, item])
  {
    hide IsList;
    parent := new Item();
    first := new Item();
    item := new Item();
    item.next := new Item();
    NoItems(parent);
    ok := AddItemToArray(parent, first, []);
    assert [] + [first] == [first] && [first] + [item] == [first, item];
    ok := AddItemToArray(parent, item, [first]);
  }

  /** An item that is in the list already: inserting it once more succeeds, and the array is no list with it
      in both places. */
  method TwiceInsertedExample() returns (parent: Item, first: Item, item: Item, ok: bool)
    ensures ok && !IsList(parent, [item, first, item])
  {
    hide IsList;
    parent, first, item := TwoItems();
    assert [first, item][..0] + [item] + [first, item][0..] == [item, first, item];
    ok := InsertItemInArray(parent, 0, item, [first, item]);
  }

  method TwoItems() returns (parent: Item, first: Item, item: Item)
    ensures fresh(parent) && fresh(first) && fresh(item) && IsList(parent, [first, item])
  {
    hide IsList;
    parent := new Item();
    first := new Item();
    item := new Item();
    NoItems(parent);
    var ok := AddItemToArray(parent, first, []);
    assert [] + [first] == [first] && [first] + [item] == [first, item];
    ok := AddItemToArray(parent, item, [first]);
  }

  lemma NoItems(parent: Item)
    requires parent.child == null
    ensures IsList(parent, [])
  {
  }

  /** cJSON_DetachItemViaPointer */
  method DetachItemViaPointer(parent: Item?, item: Item?, ghost items: seq<Item>, ghost k: nat)
    returns (detached: Item?)
    requires parent != null ==> IsList(parent, items)
    requires parent != null && item != null ==> k < |items| && items[k] == item
    modifies The(parent)`child, items`next, items`prev
    ensures detached == if parent == null then null else item
    ensures detached != null ==>
              && IsList(parent, items[..k] + items[k + 1..])
              && item.next == null && item.prev == null
    ensures detached == null && parent != null ==> IsList(parent, items)
  {
    if parent == null || item == null {
      return null;
    }
    LinksAt(parent, items, k);
    if item != parent.child {
      item.prev.next := item.next;
    }
    if item.next != null {
      item.next.prev := item.prev;
    }
    if item == parent.child {
      parent.child := item.next;
    } else if item.next == null {
      parent.child.prev := item.prev;
    }
    item.prev := null;
    item.next := null;
    DetachedIsList(parent, items, k);
    return item;
  }

  /** cJSON_DetachItemFromArray */
  method DetachItemFromArray(parent: Item?, which: int, ghost items: seq<Item>) returns (detached: Item?)
    requires parent != null ==> IsList(parent, items)
    modifies The(parent)`child, items`next, items`prev
    ensures parent != null && 0 <= which < |items| ==>
              && detached == items[which]
              && IsList(parent, items[..which] + items[which + 1..])
              && detached.next == null && detached.prev == null
    ensures parent == null || which < 0 || which >= |items| ==>
              detached == null && (parent != null ==> IsList(parent, items))
  {
    if which < 0 {
      return null;
    }
    var item := GetArrayItem(parent, which, items);
    detached := DetachItemViaPointer(parent, item, items, if which < |items| then which else 0);
  }

  /** cJSON_InsertItemInArray; a position behind the last item appends. In front of an item it does not
      refuse the array itself, nor an item of the list. */
  method InsertItemInArray(parent: Item?, which: int, newitem: Item?, ghost items: seq<Item>) returns (ok: bool)
    requires parent != null ==> IsList(parent, items)
    modifies The(parent)`child, The(newitem)`next, The(newitem)`prev, items`next, items`prev
    ensures ok <==> parent != null && newitem != null && which >= 0 && (which < |items| || newitem != parent)
    ensures ok && which < |items| ==>
              (IsList(parent, items[..which] + [newitem] + items[which..]) <==> newitem !in items && newitem != parent)
    ensures ok && which >= |items| ==>
              (IsList(parent, items + [newitem]) <==> items == [] || (newitem !in items && old(newitem.next) == null))
    ensures !ok && parent != null ==> IsList(parent, items)
  {
    if which < 0 || newitem == null {
      return false;
    }
    var after := GetArrayItem(parent, which, items);
    if after == null {
      ok := AddItemToArray(parent, newitem, items);
      return;
    }
    InsertBefore(parent, after, newitem, items, which);
    return true;
  }

  /** The links of an insertion in front of an item. The source also refuses an item other than the
      first without prev; a list has none. */
  method InsertBefore(parent: Item, after: Item, newitem: Item, ghost items: seq<Item>, ghost k: nat)
    requires IsList(parent, items) && k < |items| && items[k] == after
    modifies parent`child, newitem`next, newitem`prev, items`next, items`prev
    ensures IsList(parent, items[..k] + [newitem] + items[k..]) <==> newitem !in items && newitem != parent
  {
    LinksAt(parent, items, k);
    newitem.next := after;
    newitem.prev := after.prev;
    after.prev := newitem;
    if after == parent.child {
      parent.child := newitem;
    } else {
      newitem.prev.next := newitem;
    }
    if newitem !in items && newitem != parent {
      InsertedIsList(parent, newitem, items, k);
    } else {
      InsertedIsNoList(parent, newitem, items, k);
    }
  }

  lemma InsertedIsNoList(parent: Item, newitem: Item, items: seq<Item>, k: nat)
    requires k <= |items| && (newitem in items || newitem == parent)
    ensures !IsList(parent, items[..k] + [newitem] + items[k..])
  {
    InsertedAt(items, newitem, k);
    var grown := items[..k] + [newitem] + items[k..];
    if newitem in items {
      var i :| 0 <= i < |items| && items[i] == newitem;
      assert grown[if i < k then i else i + 1] == newitem;
    }
  }

  ghost predicate Distinct(items: seq<Item>) { forall i, j :: 0 <= i < j < |items| ==> items[i] != items[j] }

  /** The links that an insertion leaves. */
  lemma InsertedIsList(parent: Item, newitem: Item, items: seq<Item>, k: nat)
    requires k < |items| && Distinct(items) && parent !in items && newitem !in items && newitem != parent
    requires newitem.next == items[k] && items[k].prev == newitem
    requires newitem.prev == if k == 0 then items[|items| - 1] else items[k - 1]
    requires parent.child == if k == 0 then newitem else items[0]
    requires k > 0 ==> items[k - 1].next == newitem && items[0].prev == items[|items| - 1]
    requires items[|items| - 1].next == null
    requires forall i :: 0 <= i < |items| - 1 && i + 1 != k ==> items[i].next == items[i + 1]
    requires forall i :: 1 <= i < |items| && i != k ==> items[i].prev == items[i - 1]
    ensures IsList(parent, items[..k] + [newitem] + items[k..])
  {
    var grown := items[..k] + [newitem] + items[k..];
    InsertedAt(items, newitem, k);
    assert forall i :: 0 <= i < |grown| - 1 ==> grown[i].next == grown[i + 1];
    assert forall i :: 1 <= i < |grown| ==> grown[i].prev == grown[i - 1];
  }

  /** The links that a removal leaves. */
  lemma DetachedIsList(parent: Item, items: seq<Item>, k: nat)
    requires k < |items| && Distinct(items) && parent !in items
    requires var n := |items|;
             && parent.child == (if k > 0 then items[0] else if n > 1 then items[1] else null)
             && (k > 0 ==> items[k - 1].next == if k + 1 < n then items[k + 1] else null)
             && (k == 0 && n > 1 ==> items[1].prev == items[n - 1])
             && (k > 0 ==> items[0].prev == if k + 1 < n then items[n - 1] else items[k - 1])
             && (k > 0 && k + 1 < n ==> items[k + 1].prev == items[k - 1])
             && (k + 1 < n ==> items[n - 1].next == null)
    requires forall i :: 0 <= i < |items| - 1 && i != k && i + 1 != k ==> items[i].next == items[i + 1]
    requires forall i :: 1 <= i < |items| && i != k && i != k + 1 ==> items[i].prev == items[i - 1]
    ensures IsList(parent, items[..k] + items[k + 1..])
  {
    var rest := items[..k] + items[k + 1..];
    assert forall i :: 0 <= i < |rest| ==> rest[i] == items[if i < k then i else i + 1];
    assert forall i :: 0 <= i < |rest| - 1 ==> rest[i].next == rest[i + 1];
    assert forall i :: 1 <= i < |rest| ==> rest[i].prev == rest[i - 1];
  }

  lemma InsertedAt<T>(items: seq<T>, x: T, k: nat)
    requires k <= |items|
    ensures var grown := items[..k] + [x] + items[k..];
            && |grown| == |items| + 1
            && (forall i :: 0 <= i < k ==> grown[i] == items[i])
            && grown[k] == x
            && (forall i :: k < i < |grown| ==> grown[i] == items[i - 1])
  {
  }

  /** The links that a replacement leaves. */
  lemma ReplacedIsList(parent: Item, replacement: Item, items: seq<Item>, k: nat)
    requires k < |items| && Distinct(items) && parent !in items && replacement !in items && replacement != parent
    requires var n := |items|;
             && replacement.next == (if k + 1 < n then items[k + 1] else null)
             && replacement.prev == (if n == 1 then replacement else if k == 0 then items[n - 1] else items[k - 1])
             && parent.child == (if k == 0 then replacement else items[0])
             && (k > 0 ==> items[k - 1].next == replacement)
             && (k > 0 ==> items[0].prev == if k + 1 < n then items[n - 1] else replacement)
             && (k + 1 < n ==> items[k + 1].prev == replacement && items[n - 1].next == null)
    requires forall i :: 0 <= i < |items| - 1 && i != k && i + 1 != k ==> items[i].next == items[i + 1]
    requires forall i :: 1 <= i < |items| && i != k && i != k + 1 ==> items[i].prev == items[i - 1]
    ensures IsList(parent, items[k := replacement])
  {
  }

  lemma ReplacedIsNoList(parent: Item, replacement: Item, items: seq<Item>, k: nat)
    requires k < |items| && replacement != items[k] && (replacement in items || replacement == parent)
    ensures !IsList(parent, items[k := replacement])
  {
    var changed := items[k := replacement];
    assert changed[k] == replacement;
    if replacement in items {
      var i :| 0 <= i < |items| && items[i] == replacement;
      assert changed[i] == replacement;
    }
  }

  /** cJSON_ReplaceItemViaPointer; the replaced item is unlinked (and freed). */
  method ReplaceItemViaPointer(parent: Item?, item: Item?, replacement: Item?, ghost items: seq<Item>, ghost k: nat)
    returns (ok: bool)
    requires parent != null ==> IsList(parent, items)
    requires parent != null && item != null && items != [] ==> k < |items| && items[k] == item
    modifies The(parent)`child, The(replacement)`next, The(replacement)`prev, items`next, items`prev
    ensures ok <==> parent != null && items != [] && item != null && replacement != null
    ensures ok ==>
              (IsList(parent, items[k := replacement]) <==>
               replacement == item || (replacement !in items && replacement != parent))
    ensures ok && replacement != item ==> item.next == null && item.prev == null
    ensures !ok && parent != null ==> IsList(parent, items)
  {
    if parent == null || parent.child == null || replacement == null || item == null {
      return false;
    }
    if replacement == item {
      assert items[k := replacement] == items;
      return true;
    }
    LinksAt(parent, items, k);
    replacement.next := item.next;
    replacement.prev := item.prev;
    if replacement.next != null {
      replacement.next.prev := replacement;
    }
    if parent.child == item {
      if parent.child.prev == parent.child {
        replacement.prev := replacement;
      }
      parent.child := replacement;
    } else {
      if replacement.prev != null {
        replacement.prev.next := replacement;
      }
      if replacement.next == null {
        parent.child.prev := replacement;
      }
    }
    item.next := null;
    item.prev := null;
    if replacement !in items && replacement != parent {
      ReplacedIsList(parent, replacement, items, k);
    } else {
      ReplacedIsNoList(parent, replacement, items, k);
    }
    return true;
  }

  /** cJSON_ReplaceItemInArray */
  method ReplaceItemInArray(parent: Item?, which: int, newitem: Item?, ghost items: seq<Item>) returns (ok: bool)
    requires parent != null ==> IsList(parent, items)
    modifies The(parent)`child, The(newitem)`next, The(newitem)`prev, items`next, items`prev
    ensures ok <==> parent != null && newitem != null && 0 <= which < |items|
    ensures ok ==>
              (IsList(parent, items[which := newitem]) <==>
               newitem == items[which] || (newitem !in items && newitem != parent))
    ensures !ok && parent != null ==> IsList(parent, items)
  {
    if which < 0 {
      return false;
    }
    var item := GetArrayItem(parent, which, items);
    ok := ReplaceItemViaPointer(parent, item, newitem, items, if which < |items| then which else 0);
  }
}
