/** The recursive-descent parser (cJSON.c): it advances an offset and a depth, and fills items. */
module JsonParser {
  import opened Bytes
  import opened Options
  import opened JsonStrings
  import opened JsonNumbers
  import opened JsonText
  import opened JsonItems
  import opened JsonTrees

  // --- the parser's loops over list elements, as their grammar ---

  function PrependItems(items: seq<Json>, rest: ParsedItems): ParsedItems {
    if rest.NoItems? then NoItems else Items(items + rest.items, rest.next)
  }

  function PrependMembers(members: seq<Member>, rest: ParsedMembers): ParsedMembers {
    if rest.NoMembers? then NoMembers else Members(members + rest.members, rest.next)
  }

  /** What the elements behind the one that ends before `after` parse to. */
  function MoreItems(t: seq<byte>, after: nat, more: bool, depth: nat): ParsedItems
    requires Terminated(t) && after < |t| && (more ==> after + 1 < |t|)
  {
    if more then ParseItems(t, after + 1, depth)
    else if t[after] == CLOSE_ARRAY then Items([], after + 1)
    else NoItems
  }

  function MoreMembers(t: seq<byte>, after: nat, more: bool, depth: nat): ParsedMembers
    requires Terminated(t) && after < |t| && (more ==> after + 1 < |t|)
  {
    if more then ParseMembers(t, after + 1, depth)
    else if t[after] == CLOSE_OBJECT then Members([], after + 1)
    else NoMembers
  }

  /** One element behind a byte, and the offset of what follows it over blanks. */
  function ItemAt(t: seq<byte>, before: nat, depth: nat): (r: Option<(Json, nat)>)
    requires Terminated(t) && before + 1 < |t|
    ensures r.Some? ==> before < r.value.1 < |t|
  {
    match JsonText.ParseValue(t, SkipWhitespace(t, before + 1), depth)
    case Fail => None
    case Done(value, next) => Some((value, SkipWhitespace(t, next)))
  }

  function MemberAt(t: seq<byte>, before: nat, depth: nat): (r: Option<(Member, nat)>)
    requires Terminated(t) && before + 1 < |t|
    ensures r.Some? ==> before < r.value.1 < |t|
  {
    match ParseName(t, before + 1)
    case None => None
    case Some(name) =>
      match ItemAt(t, name.1 - 1, depth)
      case None => None
      case Some(item) => Some((Member(name.0, item.0), item.1))
  }

  lemma MemberParts(t: seq<byte>, before: nat, depth: nat)
    requires Terminated(t) && before + 1 < |t|
    ensures var name := ParseName(t, before + 1);
            MemberAt(t, before, depth) ==
            if name.None? then None
            else
              match JsonText.ParseValue(t, SkipWhitespace(t, name.value.1), depth)
              case Fail => None
              case Done(value, next) => Some((Member(name.value.0, value), SkipWhitespace(t, next)))
  {
    hide JsonText.ParseValue, SkipWhitespace, ParseName;
  }

  lemma ItemsRound(t: seq<byte>, before: nat, depth: nat, items: seq<Json>)
    requires Terminated(t) && before + 1 < |t|
    ensures PrependItems(items, MoreItems(t, before, true, depth)) ==
            match ItemAt(t, before, depth)
            case None => NoItems
            case Some(item) => PrependItems(items + [item.0], MoreItems(t, item.1, t[item.1] == COMMA, depth))
  {
    hide JsonText.ParseValue, SkipWhitespace;
    var item := ItemAt(t, before, depth);
    if item.Some? {
      var (value, after) := item.value;
      if t[after] == COMMA {
        var rest := ParseItems(t, after + 1, depth);
        if rest.Items? {
          assert items + ([value] + rest.items) == items + [value] + rest.items;
        }
      } else {
        assert items + [value] + [] == items + [value];
      }
    }
  }

  lemma MembersRound(t: seq<byte>, before: nat, depth: nat, members: seq<Member>)
    requires Terminated(t) && before + 1 < |t|
    ensures PrependMembers(members, MoreMembers(t, before, true, depth)) ==
            match MemberAt(t, before, depth)
            case None => NoMembers
            case Some(m) => PrependMembers(members + [m.0], MoreMembers(t, m.1, t[m.1] == COMMA, depth))
  {
    hide JsonText.ParseValue, SkipWhitespace, ParseName;
    var m := MemberAt(t, before, depth);
    if m.Some? {
      var (member, after) := m.value;
      if t[after] == COMMA {
        var rest := ParseMembers(t, after + 1, depth);
        if rest.Members? {
          assert members + ([member] + rest.members) == members + [member] + rest.members;
        }
      } else {
        assert members + [member] + [] == members + [member];
      }
    }
  }

  lemma NumberEndStep(t: seq<byte>, i: nat, left: nat)
    requires i <= |t|
    ensures NumberEnd(t, i, left) ==
            if left > 0 && i < |t| && IsNumberChar(t[i]) then NumberEnd(t, i + 1, left - 1) else i
  {
  }

  /** What a call that parses into an item gives for what its text means. */
  ghost predicate Filled(r: Parsed, ok: bool, item: Item, tree: Tree)
    reads tree.root, tree.below
  {
    ok == r.Done? && (ok ==> tree.root == item && Holds(tree, r.value))
  }

  class ParseBuffer {
    const content: seq<byte>
    var offset: nat
    var depth: nat

    constructor (content: seq<byte>)
      ensures this.content == content && offset == 0 && depth == 0
    {
      this.content, offset, depth := content, 0, 0;
    }

    method BufferSkipWhitespace()
      requires offset < |content|
      modifies this`offset
      ensures offset == SkipWhitespace(content, old(offset))
    {
      while offset < |content| && content[offset] <= 32
        invariant old(offset) <= offset <= |content|
        invariant if offset < |content| then SkipWhitespace(content, old(offset)) == SkipWhitespace(content, offset)
                  else SkipWhitespace(content, old(offset)) == |content| - 1
      {
        offset := offset + 1;
      }
      if offset == |content| {
        offset := offset - 1;
      }
    }

    method SkipUtf8Bom()
      requires offset == 0
      modifies this`offset
      ensures offset == if 4 < |content| && Occurs(content, 0, BYTE_ORDER_MARK) then 3 else 0
    {
      if 4 < |content| && Occurs(content, 0, BYTE_ORDER_MARK) {
        offset := offset + 3;
      }
    }

    method ParseString(item: Item) returns (ok: bool)
      requires offset < |content|
      modifies this`offset, item`kind, item`valueString
      ensures var r := StringAtOffset(content, old(offset));
              && ok == r.Some?
              && (ok ==> item.kind == StringKind && item.valueString == Some(r.value.0) && offset == r.value.1)
    {
      var r := JsonStrings.ParseString(content, offset);
      if r.None? {
        return false;
      }
      item.kind := StringKind;
      item.valueString := Some(r.value.0);
      offset := r.value.1;
      return true;
    }

    /** The copy of at most 63 number characters that strtod reads. */
    static method CopyNumber(t: seq<byte>, offset: nat) returns (numberString: array<byte>, i: nat)
      requires offset < |t|
      ensures i <= numberString.Length && offset + i == NumberEnd(t, offset, 63)
      ensures numberString[..i] == t[offset..offset + i]
    {
      hide IsNumberChar, NumberEnd;
      numberString, i := new byte[64](_ => 0), 0;
      while i < 63 && offset + i < |t| && IsNumberChar(t[offset + i])
        invariant i <= 63 && offset + i <= |t|
        invariant forall k :: 0 <= k < i ==> numberString[k] == t[offset + k]
        invariant NumberEnd(t, offset, 63) == NumberEnd(t, offset + i, 63 - i)
      {
        NumberEndStep(t, offset + i, 63 - i);
        numberString[i] := t[offset + i];
        i := i + 1;
      }
      NumberEndStep(t, offset + i, 63 - i);
    }

    method ParseNumber(item: Item) returns (ok: bool)
      requires offset < |content|
      modifies this`offset, item`kind, item`valueDouble, item`valueInt
      ensures var (number, length) := NumberAt(content, old(offset));
              && ok == (length > 0)
              && (ok ==> offset == old(offset) + length && item.kind == NumberKind
                         && item.valueDouble == number && item.valueInt == Saturated(number))
    {
      hide Strtod, NumberEnd, TowardsZero;
      var numberString, i := CopyNumber(content, offset);
      var (number, length) := Strtod(numberString[..i]);
      if length == 0 {
        return false;
      }
      item.valueDouble := number;
      if number >= INT_MAX as real {
        item.valueInt := INT_MAX;
      } else if number <= INT_MIN as real {
        item.valueInt := INT_MIN;
      } else {
        item.valueInt := TowardsZero(number);
      }
      item.kind := NumberKind;
      offset := offset + length;
      return true;
    }

    method ParseValue(item: Item) returns (ok: bool, ghost tree: Tree)
      requires Terminated(content) && offset < |content| && depth <= NESTING_LIMIT && item.child == null
      modifies this, item
      ensures var r := JsonText.ParseValue(content, old(offset), old(depth));
              && Filled(r, ok, item, tree) && (ok ==> offset == r.next && depth == old(depth))
      ensures ok ==> fresh(tree.below)
      ensures item.next == old(item.next) && item.prev == old(item.prev) && item.name == old(item.name)
      decreases |content| - offset, 3
    {
      hide JsonText.ParseArray, JsonText.ParseObject, StringAtOffset, NumberAt, Occurs, Holds, Saturated;
      tree := Tree(item, {}, []);
      if Occurs(content, offset, NULL_TEXT) {
        item.kind := NullKind;
        offset := offset + 4;
        LeafHolds(item, Null);
        ok := true;
      } else if Occurs(content, offset, FALSE_TEXT) {
        item.kind := FalseKind;
        offset := offset + 5;
        LeafHolds(item, False);
        ok := true;
      } else if Occurs(content, offset, TRUE_TEXT) {
        item.kind := TrueKind;
        item.valueInt := 1;
        offset := offset + 4;
        LeafHolds(item, True);
        ok := true;
      } else if content[offset] == QUOTE {
        ok := ParseString(item);
        if ok {
          LeafHolds(item, String(Text(item.valueString)));
        }
      } else if content[offset] == MINUS || IsDigit(content[offset]) {
        ok := ParseNumber(item);
        if ok {
          LeafHolds(item, Number(item.valueDouble));
        }
      } else if content[offset] == OPEN_ARRAY {
        ok, tree := ParseArray(item);
      } else if content[offset] == OPEN_OBJECT {
        ok, tree := ParseObject(item);
      } else {
        ok := false;
      }
    }

    /** One round of the loop over array elements. */
    method AddElement(ghost trees: seq<Tree>, ghost region: set<Item>, ghost items: seq<Json>, current: Item?)
      returns (ok: bool, newItem: Item, ghost tree: Tree)
      requires Terminated(content) && offset + 1 < |content| && depth <= NESTING_LIMIT
      requires Listing(trees, region, items) && current == LastRoot(trees)
      modifies this, current
      ensures var r := ItemAt(content, old(offset), old(depth));
              && ok == r.Some?
              && (ok ==> offset == r.value.1 && Listing(trees + [tree], region + tree.Nodes(), items + [r.value.0]))
      ensures ok ==> depth == old(depth) && fresh(tree.Nodes()) && tree.root == newItem && newItem.next == null
      decreases |content| - offset, 0
    {
      hide JsonText.ParseValue, SkipWhitespace, Holds, Listing;
      newItem := new Item();
      Attach(trees, region, items, current, newItem);
      offset := offset + 1;
      BufferSkipWhitespace();
      ghost var r := JsonText.ParseValue(content, offset, depth);
      ok, tree := ParseValue(newItem);
      if ok {
        ListingGrows(trees, region, items, tree, r.value);
        BufferSkipWhitespace();
      }
    }

    /** The loop over array elements, from the byte in front of the first one to the closing bracket. */
    method ParseElements() returns (ok: bool, head: Item?, current: Item?,
                                    ghost trees: seq<Tree>, ghost region: set<Item>, ghost items: seq<Json>)
      requires Terminated(content) && offset + 1 < |content| && depth <= NESTING_LIMIT
      modifies this
      ensures var r := ParseItems(content, old(offset) + 1, old(depth));
              && ok == r.Items?
              && (ok ==> offset + 1 == r.next && depth == old(depth) && items == r.items)
      ensures ok ==> Listing(trees, region, items) && head == FirstRoot(trees) && current == LastRoot(trees)
      ensures ok ==> fresh(region) && trees != [] && current.next == null && head in region
      decreases |content| - offset, 1
    {
      hide ParseItems, SkipWhitespace, Listing, ItemAt;
      head, current, trees, region, items := null, null, [], {}, [];
      ghost var whole := ParseItems(content, offset + 1, depth);
      var more := true;
      NothingListed();
      while more
        invariant old(offset) <= offset < |content| && depth == old(depth) && (more ==> offset + 1 < |content|)
        invariant fresh(region) && Listing(trees, region, items)
        invariant head == FirstRoot(trees) && current == LastRoot(trees)
        invariant current != null ==> current.next == null && current in region && head in region
        invariant more || current != null
        invariant whole == PrependItems(items, MoreItems(content, offset, more, depth))
        decreases |content| - offset, more
      {
        ItemsRound(content, offset, depth, items);
        ghost var r := ItemAt(content, offset, depth);
        var newItem;
        ghost var tree;
        ok, newItem, tree := AddElement(trees, region, items, current);
        if !ok {
          return;
        }
        head := if head == null then newItem else head;
        current := newItem;
        trees, region, items := trees + [tree], region + tree.Nodes(), items + [r.value.0];
        more := content[offset] == COMMA;
      }
      ok := content[offset] == CLOSE_ARRAY;
    }

    method ParseArray(item: Item) returns (ok: bool, ghost tree: Tree)
      requires Terminated(content) && offset < |content| && depth <= NESTING_LIMIT && item.child == null
      requires content[offset] == OPEN_ARRAY
      modifies this, item
      ensures var r := JsonText.ParseArray(content, old(offset), old(depth));
              && Filled(r, ok, item, tree) && (ok ==> offset == r.next && depth == old(depth))
      ensures ok ==> fresh(tree.below)
      ensures item.next == old(item.next) && item.prev == old(item.prev) && item.name == old(item.name)
      decreases |content| - offset, 2
    {
      hide ParseItems, Listing, SkipWhitespace, FirstRoot, LastRoot, Holds, Closed;
      tree := Tree(item, {}, []);
      if depth >= NESTING_LIMIT {
        return false, tree;
      }
      depth := depth + 1;
      offset := offset + 1;
      BufferSkipWhitespace();
      var head: Item?, current: Item? := null, null;
      ghost var trees: seq<Tree>, region: set<Item>, items: seq<Json> := [], {}, [];
      if content[offset] == CLOSE_ARRAY {
        NothingListed();
      } else {
        offset := offset - 1;
        ok, head, current, trees, region, items := ParseElements();
        if !ok {
          return;
        }
      }
      depth := depth - 1;
      CloseList(trees, region, items, head, current);
      item.kind := ArrayKind;
      item.child := head;
      offset := offset + 1;
      ok, tree := true, Tree(item, region, trees);
      ArrayListHolds(tree, items);
    }

    /** The name of a member, moved from the string that was parsed to the item's name, and its colon. */
    method ParseMemberName(newItem: Item) returns (ok: bool)
      requires Terminated(content) && offset < |content|
      modifies this`offset, newItem`kind, newItem`valueString, newItem`name
      ensures var name := ParseName(content, old(offset));
              && ok == name.Some?
              && (ok ==> newItem.name == Some(name.value.0) && offset == name.value.1)
    {
      hide StringAtOffset, SkipWhitespace;
      BufferSkipWhitespace();
      ok := ParseString(newItem);
      if !ok {
        return;
      }
      BufferSkipWhitespace();
      newItem.name := newItem.valueString;
      newItem.valueString := None;
      if content[offset] != COLON {
        return false;
      }
      offset := offset + 1;
    }

    /** One round of the loop over object members. */
    method AddMember(ghost trees: seq<Tree>, ghost region: set<Item>, ghost members: seq<Member>, current: Item?)
      returns (ok: bool, newItem: Item, ghost tree: Tree)
      requires Terminated(content) && offset + 1 < |content| && depth <= NESTING_LIMIT
      requires MemberListing(trees, region, members) && current == LastRoot(trees)
      modifies this, current
      ensures var r := MemberAt(content, old(offset), old(depth));
              && ok == r.Some?
              && (ok ==> offset == r.value.1
                         && MemberListing(trees + [tree], region + tree.Nodes(), members + [r.value.0]))
      ensures ok ==> depth == old(depth) && fresh(tree.Nodes()) && tree.root == newItem && newItem.next == null
      decreases |content| - offset, 0
    {
      hide JsonText.ParseValue, SkipWhitespace, Holds, Listing, MemberListing, ParseName, Terminated, MemberAt;
      MemberParts(content, offset, depth);
      newItem := new Item();
      AttachMember(trees, region, members, current, newItem);
      offset := offset + 1;
      ghost var name := ParseName(content, offset);
      ok := ParseMemberName(newItem);
      if !ok {
        tree := Tree(newItem, {}, []);
        return;
      }
      BufferSkipWhitespace();
      ghost var r := JsonText.ParseValue(content, offset, depth);
      ok, tree := ParseValue(newItem);
      if ok {
        MembersGrow(trees, region, members, tree, Member(name.value.0, r.value));
        BufferSkipWhitespace();
      }
    }

    /** The loop over object members, from the byte in front of the first one to the closing brace. */
    method ParseMemberList() returns (ok: bool, head: Item?, current: Item?,
                                      ghost trees: seq<Tree>, ghost region: set<Item>, ghost members: seq<Member>)
      requires Terminated(content) && offset + 1 < |content| && depth <= NESTING_LIMIT
      modifies this
      ensures var r := ParseMembers(content, old(offset) + 1, old(depth));
              && ok == r.Members?
              && (ok ==> offset + 1 == r.next && depth == old(depth) && members == r.members)
      ensures ok ==> MemberListing(trees, region, members)
      ensures ok ==> head == FirstRoot(trees) && current == LastRoot(trees)
      ensures ok ==> fresh(region) && trees != [] && current.next == null && head in region
      decreases |content| - offset, 1
    {
      hide ParseMembers, SkipWhitespace, MemberListing, MemberAt;
      head, current, trees, region, members := null, null, [], {}, [];
      ghost var whole := ParseMembers(content, offset + 1, depth);
      var more := true;
      NothingListed();
      while more
        invariant old(offset) <= offset < |content| && depth == old(depth) && (more ==> offset + 1 < |content|)
        invariant fresh(region) && MemberListing(trees, region, members)
        invariant head == FirstRoot(trees) && current == LastRoot(trees)
        invariant current != null ==> current.next == null && current in region && head in region
        invariant more || current != null
        invariant whole == PrependMembers(members, MoreMembers(content, offset, more, depth))
        decreases |content| - offset, more
      {
        MembersRound(content, offset, depth, members);
        ghost var r := MemberAt(content, offset, depth);
        var newItem;
        ghost var tree;
        ok, newItem, tree := AddMember(trees, region, members, current);
        if !ok {
          return;
        }
        head := if head == null then newItem else head;
        current := newItem;
        trees, region, members := trees + [tree], region + tree.Nodes(), members + [r.value.0];
        more := content[offset] == COMMA;
      }
      ok := content[offset] == CLOSE_OBJECT;
    }

    method ParseObject(item: Item) returns (ok: bool, ghost tree: Tree)
      requires Terminated(content) && offset < |content| && depth <= NESTING_LIMIT && item.child == null
      requires content[offset] == OPEN_OBJECT
      modifies this, item
      ensures var r := JsonText.ParseObject(content, old(offset), old(depth));
              && Filled(r, ok, item, tree) && (ok ==> offset == r.next && depth == old(depth))
      ensures ok ==> fresh(tree.below)
      ensures item.next == old(item.next) && item.prev == old(item.prev) && item.name == old(item.name)
      decreases |content| - offset, 2
    {
      hide ParseMembers, Listing, MemberListing, SkipWhitespace, FirstRoot, LastRoot, Holds, Closed, ValuesOf;
      tree := Tree(item, {}, []);
      if depth >= NESTING_LIMIT {
        return false, tree;
      }
      depth := depth + 1;
      offset := offset + 1;
      BufferSkipWhitespace();
      var head: Item?, current: Item? := null, null;
      ghost var trees: seq<Tree>, region: set<Item>, members: seq<Member> := [], {}, [];
      if content[offset] == CLOSE_OBJECT {
        NothingListed();
      } else {
        offset := offset - 1;
        ok, head, current, trees, region, members := ParseMemberList();
        if !ok {
          return;
        }
      }
      depth := depth - 1;
      CloseMembers(trees, region, members, head, current);
      item.kind := ObjectKind;
      item.child := head;
      offset := offset + 1;
      ok, tree := true, Tree(item, region, trees);
      ObjectListHolds(tree, members);
    }
  }

  lemma NothingListed()
    ensures Listing([], {}, []) && MemberListing([], {}, []) && FirstRoot([]) == null && LastRoot([]) == null
  {
  }

  /** cJSON_Parse: new items that hold the value of the text, or none. */
  method ParseText(value: seq<byte>) returns (item: Item?, ghost tree: Option<Tree>)
    ensures match Parse(value)
            case Fail => item == null
            case Done(v, _) => item != null && tree.Some? && tree.value.root == item && Holds(tree.value, v)
    ensures item != null ==> fresh(tree.value.Nodes())
  {
    hide JsonText.ParseValue, SkipWhitespace, Holds;
    var buffer := new ParseBuffer(CString(value) + [0]);
    var root := new Item();
    buffer.SkipUtf8Bom();
    buffer.BufferSkipWhitespace();
    var ok;
    ghost var filled;
    ok, filled := buffer.ParseValue(root);
    if !ok {
      return null, None;
    }
    return root, Some(filled);
  }
}
