/** The printer (cJSON.c): it writes through a growing buffer and finds the end of what a nested call
    wrote by looking for the NUL behind it. */
module JsonPrinter {
  import opened Bytes
  import opened Options
  import opened JsonStrings
  import opened JsonPieces
  import opened JsonEscapes
  import opened JsonNumbers
  import opened JsonText
  import opened JsonItems
  import opened JsonTrees

  class PrintBuffer {
    var buffer: array<byte>
    var length: nat
    var offset: nat
    var depth: nat
    const format: bool

    ghost predicate Valid()
      reads this`buffer, this`length, this`offset
    {
      length == buffer.Length && offset < length <= INT_MAX
    }

    /** What stands in front of the offset. */
    ghost function Printed(): seq<byte>
      requires Valid()
      reads this`buffer, this`length, this`offset, buffer
    {
      buffer[..offset]
    }

    /** A nested call wrote s behind the text that was there, with a NUL, and left the offset inside. */
    ghost predicate Wrote(before: seq<byte>, s: seq<byte>)
      requires Valid()
      reads this`buffer, this`length, this`offset, buffer
    {
      var end := |before| + |s|;
      && |before| <= offset <= end < length
      && buffer[..end] == before + s && buffer[end] == 0
    }

    /** print: a new buffer of the default size. */
    constructor (format: bool)
      ensures Valid() && fresh(buffer) && Printed() == [] && depth == 0 && this.format == format
    {
      buffer, length, offset, depth := new byte[256], 256, 0, 0;
      this.format := format;
    }

    /** ensure: room for needed bytes at the offset and one more, or failure when that passes INT_MAX.
        A valid buffer never has the offset behind its end, which the source refuses too. */
    method Ensure(needed: nat) returns (ok: bool)
      requires Valid()
      modifies this`buffer, this`length
      ensures Valid() && Printed() == old(Printed()) && (buffer == old(buffer) || fresh(buffer))
      ensures ok <==> offset + needed + 1 <= INT_MAX
      ensures ok ==> offset + needed < length
    {
      if needed > INT_MAX {
        return false;
      }
      var total := needed + offset + 1;
      if total <= length {
        return true;
      }
      var newSize;
      if total > INT_MAX / 2 {
        if total <= INT_MAX {
          newSize := INT_MAX;
        } else {
          return false;
        }
      } else {
        newSize := total * 2;
      }
      Reallocate(newSize);
      return true;
    }

    method Reallocate(newSize: nat)
      requires Valid() && length <= newSize <= INT_MAX
      modifies this`buffer, this`length
      ensures Valid() && Printed() == old(Printed()) && fresh(buffer) && length == newSize
    {
      var grown := new byte[newSize];
      CopyMemory(grown, 0, buffer[..length]);
      assert grown[..length] == buffer[..length];
      assert grown[..offset] == grown[..length][..offset];
      length := newSize;
      buffer := grown;
    }

    /** update_offset: to the NUL behind what a nested call wrote. */
    method UpdateOffset(ghost before: seq<byte>, ghost s: seq<byte>)
      requires Valid() && Wrote(before, s) && 0 !in s
      modifies this`offset
      ensures Valid() && Printed() == before + s
    {
      ghost var rest := s[offset - |before|..];
      assert StringAt(buffer[..], offset, rest) by {
        assert buffer[..|before| + |s|] == before + s;
        assert buffer[offset..offset + |rest|] == (before + s)[offset..];
      }
      var n := StringLen(buffer, offset, rest);
      offset := offset + n;
    }

    /** Room for needed bytes, and data written there; the offset stays. */
    method Emit(data: seq<byte>, needed: nat) returns (ok: bool)
      requires Valid() && |data| <= needed
      modifies this`buffer, this`length, buffer
      ensures Valid() && Printed() == old(Printed()) && (buffer == old(buffer) || fresh(buffer))
      ensures ok <==> offset + needed + 1 <= INT_MAX
      ensures ok ==> offset + |data| < length && buffer[..offset + |data|] == old(Printed()) + data
    {
      ok := Ensure(needed);
      if ok {
        ghost var before := buffer[..offset];
        CopyMemory(buffer, offset, data);
        assert buffer[..offset + |data|] == before + data;
        assert buffer[..offset] == before;
      }
    }

    /** strcpy, NUL included. */
    method PrintWord(word: seq<byte>) returns (ok: bool)
      requires Valid()
      modifies this`buffer, this`length, buffer
      ensures Valid() && Printed() == old(Printed()) && (buffer == old(buffer) || fresh(buffer))
      ensures ok <==> offset + |word| + 2 <= INT_MAX
      ensures ok ==> Wrote(old(Printed()), word)
    {
      ok := Emit(word + [0], |word| + 1);
      if ok {
        WordWritten(buffer[..], old(Printed()), word);
      }
    }

    /** Room for needed bytes, data written there, and the offset behind it. */
    method Append(data: seq<byte>, needed: nat) returns (ok: bool)
      requires Valid() && |data| <= needed
      modifies this`buffer, this`length, this`offset, buffer
      ensures Valid() && (buffer == old(buffer) || fresh(buffer))
      ensures ok <==> old(offset) + needed + 1 <= INT_MAX
      ensures ok ==> Printed() == old(Printed()) + data
    {
      ok := Emit(data, needed);
      if ok {
        offset := offset + |data|;
      }
    }

    /** Data and a NUL, and the offset on the NUL. */
    method AppendString(data: seq<byte>) returns (ok: bool)
      requires Valid()
      modifies this`buffer, this`length, this`offset, buffer
      ensures Valid() && (buffer == old(buffer) || fresh(buffer))
      ensures ok <==> old(offset) + |data| + 2 <= INT_MAX
      ensures ok ==> Printed() == old(Printed()) + data
    {
      ok := PrintWord(data);
      if ok {
        offset := offset + |data|;
      }
    }

    /** Text before the last piece that was written belongs to what was written. */
    lemma WroteBehind(before: seq<byte>, a: seq<byte>, b: seq<byte>)
      requires Valid() && Wrote(before + a, b)
      ensures Wrote(before, a + b)
    {
      assert before + a + b == before + (a + b);
    }

    /** print_number, for numbers that are ints: the decimal text, and the offset behind it. */
    method PrintNumber(item: Item) returns (ok: bool)
      requires Valid() && IsInt(item.valueDouble) && item.valueInt == Saturated(item.valueDouble)
      modifies this`buffer, this`length, this`offset, buffer
      ensures Valid() && (buffer == old(buffer) || fresh(buffer))
      ensures var text := Decimal(item.valueDouble.Floor);
              && (ok <==> old(offset) + |text| + 2 <= INT_MAX)
              && (ok ==> Wrote(old(Printed()), text))
    {
      SaturatedInt(item.valueDouble);
      var text := Decimal(item.valueInt);
      ok := PrintWord(text);
      if ok {
        offset := offset + |text|;
      }
    }

    /** The first pass of print_string_ptr: the characters added by escaping. */
    static method CountEscapes(input: seq<byte>) returns (escapeCharacters: nat)
      requires 0 !in input
      ensures |PrintedText(input)| == |input| + escapeCharacters
      ensures escapeCharacters == 0 ==> PrintedText(input) == input
    {
      hide PrintedText, PrintPiece, Added;
      escapeCharacters := 0;
      NothingPrinted(input);
      for i := 0 to |input|
        invariant |PrintedText(input[..i])| == i + escapeCharacters
        invariant escapeCharacters == 0 ==> PrintedText(input[..i]) == input[..i]
      {
        PrintedStep(input, i);
        PrintPieceLength(input[i]);
        escapeCharacters := escapeCharacters + Added(input[i]);
      }
      assert input[..|input|] == input;
    }

    static method Put(output: array<byte>, at: nat, b: byte)
      requires at < output.Length
      modifies output
      ensures output[..at + 1] == old(output[..at]) + [b]
    {
      output[at] := b;
    }

    static method PutAll(output: array<byte>, at: nat, data: seq<byte>)
      requires at + |data| <= output.Length
      modifies output
      ensures output[..at + |data|] == old(output[..at]) + data
    {
      CopyMemory(output, at, data);
    }

    /** One byte in the second pass of print_string_ptr. */
    static method PutEscaped(output: array<byte>, at: nat, b: byte) returns (after: nat)
      requires at + |PrintPiece(b).Text()| < output.Length
      modifies output
      ensures after == at + |PrintPiece(b).Text()| && output[..after] == old(output[..at]) + PrintPiece(b).Text()
    {
      hide PrintPiece, Piece.Text;
      PrintPieceTexts(b);
      if b > 31 && b != QUOTE && b != BACKSLASH {
        Put(output, at, b);
        return at + 1;
      }
      var letter: byte := 0;
      if b == BACKSLASH || b == QUOTE {
        letter := b;
      } else if b == 0x08 {
        letter := LETTER_B;
      } else if b == 0x0C {
        letter := LETTER_F;
      } else if b == LF {
        letter := LETTER_N;
      } else if b == CR {
        letter := LETTER_R;
      } else if b == TAB {
        letter := LETTER_T;
      } else {
        PutAll(output, at, [BACKSLASH, LETTER_U, 0x30, 0x30, HexChar(b / 16), HexChar(b % 16)]);
        output[at + 6] := 0;
        return at + 6;
      }
      PutAll(output, at, [BACKSLASH, letter]);
      return at + 2;
    }

    /** The second pass stays within what the first one counted. */
    static method CopyEscaped(output: array<byte>, at: nat, input: seq<byte>)
      requires at + |PrintedText(input)| < output.Length
      modifies output
      ensures output[..at + |PrintedText(input)|] == old(output[..at]) + PrintedText(input)
    {
      hide PrintedText, PrintPiece, Piece.Text;
      ghost var before := output[..at];
      var pointer := at;
      NothingPrinted(input);
      assert output[..pointer] == before + [];
      for i := 0 to |input|
        invariant pointer == at + |PrintedText(input[..i])| && pointer < output.Length
        invariant output[..pointer] == before + PrintedText(input[..i])
      {
        PrintedStep(input, i);
        PrintedPrefix(input, i + 1);
        ghost var done, piece := PrintedText(input[..i]), PrintPiece(input[i]).Text();
        pointer := PutEscaped(output, pointer, input[i]);
        assert before + done + piece == before + (done + piece);
      }
      assert input[..|input|] == input;
    }

    /** The quoted string and its NUL, copied as it is when nothing has to be escaped. */
    static method PutQuoted(output: array<byte>, at: nat, input: seq<byte>, escapeCharacters: nat)
      requires |PrintedText(input)| == |input| + escapeCharacters
      requires escapeCharacters == 0 ==> PrintedText(input) == input
      requires at + |input| + escapeCharacters + 2 < output.Length
      modifies output
      ensures var end := at + |PrintedString(input)|;
              output[..end] == old(output[..at]) + PrintedString(input) && output[end] == 0
    {
      hide PrintedText;
      var outputLength := |input| + escapeCharacters;
      ghost var before := output[..at];
      Put(output, at, QUOTE);
      if escapeCharacters == 0 {
        PutAll(output, at + 1, input);
      } else {
        CopyEscaped(output, at + 1, input);
      }
      Put(output, at + outputLength + 1, QUOTE);
      Put(output, at + outputLength + 2, 0);
      QuotedWritten(output[..], before, PrintedText(input));
    }

    method PrintStringPtr(input: Option<seq<byte>>) returns (ok: bool)
      requires Valid() && 0 !in JsonTrees.Text(input)
      modifies this`buffer, this`length, buffer
      ensures Valid() && Printed() == old(Printed()) && (buffer == old(buffer) || fresh(buffer))
      ensures var s := PrintedString(JsonTrees.Text(input));
              && (ok <==> offset + |s| + 2 <= INT_MAX)
              && (ok ==> Wrote(old(Printed()), s))
    {
      hide PrintedText;
      if input.None? {
        EmptyPrinted();
        ok := PrintWord([QUOTE, QUOTE]);
        return;
      }
      var escapeCharacters := CountEscapes(input.value);
      ok := Ensure(|input.value| + escapeCharacters + 3);
      if ok {
        ghost var before := buffer[..offset];
        PutQuoted(buffer, offset, input.value, escapeCharacters);
        KeptPrefix(buffer[..], before, PrintedString(input.value));
      }
    }

    method PrintValue(item: Item, ghost tree: Tree, ghost v: Json) returns (ok: bool)
      requires Valid() && tree.root == item && Holds(tree, v) && Printable(v)
      modifies this`buffer, this`length, this`offset, this`depth, buffer
      ensures Valid() && (buffer == old(buffer) || fresh(buffer))
      ensures var s := Render(v, format, old(depth));
              && (ok <==> old(offset) + |s| + 2 <= INT_MAX)
              && (ok ==> Wrote(old(Printed()), s) && depth == old(depth))
      decreases v, 1
    {
      hide ChildrenHold, PrintedString, RenderItems, RenderMembers, Wrote, Saturated, Decimal;
      match item.kind {
        case NullKind => ok := PrintWord(NULL_TEXT);
        case FalseKind => ok := PrintWord(FALSE_TEXT);
        case TrueKind => ok := PrintWord(TRUE_TEXT);
        case NumberKind => ok := PrintNumber(item);
        case StringKind => ok := PrintStringPtr(item.valueString);
        case ArrayKind => ok := PrintArray(item, tree, v);
        case ObjectKind => ok := PrintObject(item, tree, v);
      }
    }

    /** One round of the loop over array elements: the value, and a comma when another one follows. */
    method PrintElement(item: Item, ghost tree: Tree, ghost v: Json) returns (ok: bool)
      requires Valid() && tree.root == item && Holds(tree, v) && Printable(v)
      modifies this`buffer, this`length, this`offset, this`depth, buffer
      ensures Valid() && (buffer == old(buffer) || fresh(buffer))
      ensures var s := Render(v, format, old(depth)) + Between(format, item.next == null);
              && (ok <==> old(offset) + |s| + 2 <= INT_MAX)
              && (ok ==> Printed() == old(Printed()) + s && depth == old(depth))
      decreases v, 2
    {
      hide Holds, Printable, Render, Wrote;
      ghost var before, s := Printed(), Render(v, format, depth);
      RenderHasNoNul(v, format, depth);
      ok := PrintValue(item, tree, v);
      if !ok {
        return;
      }
      UpdateOffset(before, s);
      if item.next != null {
        ok := AppendString(if format then [COMMA, SPACE] else [COMMA]);
        ConcatAssoc(before, s, Separator(format));
      }
    }

    /** The loop over array elements. */
    method PrintElements(child: Item?, ghost trees: seq<Tree>, ghost region: set<Item>, ghost items: seq<Json>)
      returns (ok: bool)
      requires Valid() && Listing(trees, region, items) && Closed(trees, region) && child == FirstRoot(trees)
      requires ItemsPrintable(items)
      modifies this`buffer, this`length, this`offset, this`depth, buffer
      ensures Valid() && (buffer == old(buffer) || fresh(buffer))
      ensures var s := RenderItems(items, format, old(depth));
              && (ok <==> items == [] || old(offset) + |s| + 2 <= INT_MAX)
              && (ok ==> Printed() == old(Printed()) + s && depth == old(depth))
      decreases items, 3
    {
      hide Holds, Printable, Render, Between, RenderItems, ItemsPrintable, Listing, Closed;
      var currentElement := child;
      ghost var i := 0;
      ghost var before, written: seq<byte> := Printed(), [];
      ok := true;
      ListLength(trees, region, items);
      assert trees[0..] == trees && items[0..] == items;
      while currentElement != null
        invariant Valid() && (buffer == old(buffer) || fresh(buffer)) && depth == old(depth)
        invariant Listing(trees, region, items) && Closed(trees, region) && i <= |trees| == |items|
        invariant currentElement == FirstRoot(trees[i..]) && ItemsPrintable(items[i..])
        invariant Printed() == before + written
        invariant RenderItems(items, format, depth) == written + RenderItems(items[i..], format, depth)
        invariant i == |trees| > 0 ==> offset + 2 <= INT_MAX
        decreases |trees| - i
      {
        ListAt(trees, region, items, i);
        RenderItemsStep(items, i, format, depth, written);
        ghost var piece := Render(items[i], format, depth) + Between(format, i + 1 == |items|);
        ok := PrintElement(currentElement, trees[i], items[i]);
        if !ok {
          return;
        }
        assert before + written + piece == before + (written + piece);
        written := written + piece;
        currentElement := currentElement.next;
        i := i + 1;
      }
      NothingAfter(items, format, depth, written);
    }

    lemma WroteBrackets(before: seq<byte>, items: seq<Json>, indent: nat)
      requires Valid() && ItemsPrintable(items)
      requires Wrote(before + [OPEN_ARRAY] + RenderItems(items, format, indent + 1), [CLOSE_ARRAY])
      ensures Wrote(before, Render(Array(items), format, indent))
    {
      hide Wrote, RenderItems, ItemsPrintable;
      var s := RenderItems(items, format, indent + 1);
      assert before + [OPEN_ARRAY] + s == before + ([OPEN_ARRAY] + s);
      WroteBehind(before, [OPEN_ARRAY] + s, [CLOSE_ARRAY]);
      assert [OPEN_ARRAY] + s + [CLOSE_ARRAY] == Render(Array(items), format, indent);
    }

    method PrintArray(item: Item, ghost tree: Tree, ghost v: Json) returns (ok: bool)
      requires Valid() && tree.root == item && Holds(tree, v) && Printable(v) && v.Array?
      modifies this`buffer, this`length, this`offset, this`depth, buffer
      ensures Valid() && (buffer == old(buffer) || fresh(buffer))
      ensures var s := Render(v, format, old(depth));
              && (ok <==> old(offset) + |s| + 2 <= INT_MAX)
              && (ok ==> Wrote(old(Printed()), s) && depth == old(depth))
      decreases v, 0
    {
      hide Holds, Listing, Closed, FirstRoot, Printable, ItemsPrintable, Render, RenderItems, Wrote;
      ghost var before := Printed();
      ArrayHeld(tree, v.items);
      PartsPrintable(v);
      ArrayLength(v.items, format, depth);
      ok := Append([OPEN_ARRAY], 1);
      if !ok {
        return;
      }
      depth := depth + 1;
      ok := PrintElements(item.child, tree.children, tree.below, v.items);
      if !ok {
        return;
      }
      ok := PrintWord([CLOSE_ARRAY]);
      if !ok {
        return;
      }
      WroteBrackets(before, v.items, old(depth));
      depth := depth - 1;
    }

    static method PutTabs(output: array<byte>, at: nat, n: nat)
      requires at + n <= output.Length
      modifies output
      ensures output[..at + n] == old(output[..at]) + Tabs(n)
    {
      ghost var before := output[..at];
      for i := 0 to n
        invariant output[..at + i] == before + Tabs(i)
      {
        output[at + i] := TAB;
        TabsGrow(i);
      }
    }

    /** Room for needed bytes, tabs written there, and the offset behind them. */
    method AppendTabs(n: nat, needed: nat) returns (ok: bool)
      requires Valid() && n <= needed
      modifies this`buffer, this`length, this`offset, buffer
      ensures Valid() && (buffer == old(buffer) || fresh(buffer))
      ensures ok <==> old(offset) + needed + 1 <= INT_MAX
      ensures ok ==> Printed() == old(Printed()) + Tabs(n) && offset + (needed - n) < length
    {
      ok := Ensure(needed);
      if ok {
        PutTabs(buffer, offset, n);
        offset := offset + n;
      }
    }

    method Indent() returns (ok: bool)
      requires Valid()
      modifies this`buffer, this`length, this`offset, buffer
      ensures Valid() && (buffer == old(buffer) || fresh(buffer))
      ensures ok <==> old(offset) + |Indentation(format, depth)| + 1 <= INT_MAX
      ensures ok ==> Printed() == old(Printed()) + Indentation(format, depth)
    {
      ok := true;
      if format {
        ok := AppendTabs(depth, depth);
      } else {
        assert Printed() + [] == Printed();
      }
    }

    /** The name of a member, between its indentation and its colon. */
    method PrintName(name: Option<seq<byte>>) returns (ok: bool)
      requires Valid() && 0 !in JsonTrees.Text(name)
      modifies this`buffer, this`length, this`offset, buffer
      ensures Valid() && (buffer == old(buffer) || fresh(buffer))
      ensures var s := MemberStart(format, depth, JsonTrees.Text(name));
              && (ok <==> old(offset) + |s| + 1 <= INT_MAX)
              && (ok ==> Printed() == old(Printed()) + s)
    {
      hide Wrote, PrintedString, Indentation, JsonTrees.Text;
      ghost var key, before := JsonTrees.Text(name), Printed();
      ghost var tabs := Indentation(format, depth);
      ok := Indent();
      if ok {
        ok := PrintStringPtr(name);
      }
      if ok {
        PrintedStringHasNoNul(key);
        UpdateOffset(before + tabs, PrintedString(key));
        ok := Append(if format then [COLON, TAB] else [COLON], if format then 2 else 1);
        NameParts(before, key, format, depth);
      }
    }

    /** One round of the loop over object members. */
    method PrintMember(item: Item, ghost tree: Tree, ghost m: Member) returns (ok: bool)
      requires Valid() && tree.root == item && Holds(tree, m.value) && JsonTrees.Text(item.name) == m.key
      requires Printable(m.value) && 0 !in m.key
      modifies this`buffer, this`length, this`offset, this`depth, buffer
      ensures Valid() && (buffer == old(buffer) || fresh(buffer))
      ensures var s := MemberText(m, format, old(depth), item.next == null);
              && (ok <==> old(offset) + |s| + 2 <= INT_MAX)
              && (ok ==> Printed() == old(Printed()) + s && depth == old(depth))
      decreases m, 2
    {
      hide Holds, Printable, Render, Wrote, MemberStart;
      ghost var before, value := Printed(), Render(m.value, format, depth);
      ghost var start, end := MemberStart(format, depth, m.key), MemberEnd(format, item.next == null);
      ok := PrintName(item.name);
      if ok {
        ok := PrintValue(item, tree, m.value);
      }
      if ok {
        RenderHasNoNul(m.value, format, depth);
        UpdateOffset(before + start, value);
        ok := AppendString((if item.next != null then [COMMA] else []) + (if format then [LF] else []));
        ConcatAssoc(before, start, value);
        ConcatAssoc(before, start + value, end);
        ConcatAssoc(start, value, end);
      }
    }

    /** The loop over object members. */
    method PrintMembers(child: Item?, ghost trees: seq<Tree>, ghost region: set<Item>, ghost members: seq<Member>)
      returns (ok: bool)
      requires Valid() && MemberListing(trees, region, members) && Closed(trees, region) && child == FirstRoot(trees)
      requires MembersPrintable(members)
      modifies this`buffer, this`length, this`offset, this`depth, buffer
      ensures Valid() && (buffer == old(buffer) || fresh(buffer))
      ensures var s := RenderMembers(members, format, old(depth));
              && (ok <==> members == [] || old(offset) + |s| + 2 <= INT_MAX)
              && (ok ==> Printed() == old(Printed()) + s && depth == old(depth))
      decreases members, 3
    {
      hide Holds, Printable, MemberText, RenderMembers, MembersPrintable, MemberListing, Closed;
      var currentItem := child;
      ghost var i := 0;
      ghost var before, written: seq<byte> := Printed(), [];
      ok := true;
      MemberCount(trees, region, members);
      assert trees[0..] == trees && members[0..] == members;
      while currentItem != null
        invariant Valid() && (buffer == old(buffer) || fresh(buffer)) && depth == old(depth)
        invariant MemberListing(trees, region, members) && Closed(trees, region) && i <= |trees| == |members|
        invariant currentItem == FirstRoot(trees[i..]) && MembersPrintable(members[i..])
        invariant Printed() == before + written
        invariant RenderMembers(members, format, depth) == written + RenderMembers(members[i..], format, depth)
        invariant i == |trees| > 0 ==> offset + 2 <= INT_MAX
        decreases |trees| - i
      {
        MemberListAt(trees, region, members, i);
        RenderMembersStep(members, i, format, depth, written);
        ghost var piece := MemberText(members[i], format, depth, i + 1 == |members|);
        ok := PrintMember(currentItem, trees[i], members[i]);
        if !ok {
          return;
        }
        assert before + written + piece == before + (written + piece);
        written := written + piece;
        currentItem := currentItem.next;
        i := i + 1;
      }
      NoMemberAfter(members, format, depth, written);
    }

    /** The closing brace and the tabs before it; the offset stays in front of them. */
    method PrintClosing() returns (ok: bool)
      requires Valid() && depth > 0
      modifies this`buffer, this`length, buffer
      ensures Valid() && (buffer == old(buffer) || fresh(buffer))
      ensures var s := Indentation(format, depth - 1) + [CLOSE_OBJECT];
              && (ok <==> offset + |s| + 2 <= INT_MAX)
              && (ok ==> Wrote(old(Printed()), s))
    {
      hide Wrote;
      ok := Ensure(if format then depth + 1 else 2);
      if ok {
        ghost var before := Printed();
        var tabs := if format then depth - 1 else 0;
        PutTabs(buffer, offset, tabs);
        Put(buffer, offset + tabs, CLOSE_OBJECT);
        Put(buffer, offset + tabs + 1, 0);
        ClosingWritten(before, Tabs(tabs));
      }
    }

    lemma ClosingWritten(before: seq<byte>, tabs: seq<byte>)
      requires Valid() && offset == |before| && offset + |tabs| + 1 < length
      requires buffer[..offset + |tabs| + 2] == before + tabs + [CLOSE_OBJECT] + [0]
      ensures Wrote(before, tabs + [CLOSE_OBJECT])
    {
      assert before + tabs + [CLOSE_OBJECT] + [0] == before + ((tabs + [CLOSE_OBJECT]) + [0]);
      WordWritten(buffer[..], before, tabs + [CLOSE_OBJECT]);
    }

    lemma WroteBraces(before: seq<byte>, members: seq<Member>, indent: nat)
      requires Valid() && MembersPrintable(members)
      requires Wrote(before + Open(format) + RenderMembers(members, format, indent + 1),
                     Indentation(format, indent) + [CLOSE_OBJECT])
      ensures Wrote(before, Render(Object(members), format, indent))
    {
      hide Wrote, RenderMembers, MembersPrintable, Open, Indentation;
      var open, s := Open(format), RenderMembers(members, format, indent + 1);
      var end := Indentation(format, indent) + [CLOSE_OBJECT];
      assert before + open + s == before + (open + s);
      WroteBehind(before, open + s, end);
      assert open + s + end == Render(Object(members), format, indent);
    }

    method PrintObject(item: Item, ghost tree: Tree, ghost v: Json) returns (ok: bool)
      requires Valid() && tree.root == item && Holds(tree, v) && Printable(v) && v.Object?
      modifies this`buffer, this`length, this`offset, this`depth, buffer
      ensures Valid() && (buffer == old(buffer) || fresh(buffer))
      ensures var s := Render(v, format, old(depth));
              && (ok <==> old(offset) + |s| + 2 <= INT_MAX)
              && (ok ==> Wrote(old(Printed()), s) && depth == old(depth))
      decreases v, 0
    {
      hide Listing, MemberListing, Closed, FirstRoot, MembersPrintable, Render, RenderMembers, Wrote, Indentation;
      hide Holds, Named, ValuesOf, Printable;
      ghost var before := Printed();
      PartsPrintable(v);
      ObjectHeld(tree, v.members);
      ObjectLength(v.members, format, depth);
      ok := Append(if format then [OPEN_OBJECT, LF] else [OPEN_OBJECT], if format then 3 else 2);
      if ok {
        depth := depth + 1;
        ok := PrintMembers(item.child, tree.children, tree.below, v.members);
      }
      if ok {
        ok := PrintClosing();
      }
      if ok {
        WroteBraces(before, v.members, old(depth));
        depth := depth - 1;
      }
    }
  }

  lemma ObjectLength(members: seq<Member>, format: bool, depth: nat)
    requires MembersPrintable(members)
    ensures var s := RenderMembers(members, format, depth + 1);
            |Render(Object(members), format, depth)| == |Open(format)| + |s| + |Indentation(format, depth)| + 1
    ensures members == [] ==> RenderMembers(members, format, depth + 1) == []
  {
    hide Open, Indentation;
  }

  lemma NameParts(before: seq<byte>, key: seq<byte>, format: bool, depth: nat)
    ensures before + Indentation(format, depth) + PrintedString(key) + Colon(format)
            == before + MemberStart(format, depth, key)
  {
    hide Indentation, PrintedString, Colon;
  }

  lemma {:induction false} TabsGrow(i: nat)
    ensures Tabs(i + 1) == Tabs(i) + [TAB]
  {
  }

  /** The text of one member, and what it adds to the text of members. */
  function MemberText(m: Member, format: bool, depth: nat, last: bool): seq<byte>
    requires Printable(m.value)
  {
    MemberStart(format, depth, m.key) + (Render(m.value, format, depth) + MemberEnd(format, last))
  }

  lemma RenderMembersStep(members: seq<Member>, i: nat, format: bool, depth: nat, written: seq<byte>)
    requires i < |members| && MembersPrintable(members) && MembersPrintable(members[i..])
    requires RenderMembers(members, format, depth) == written + RenderMembers(members[i..], format, depth)
    ensures Printable(members[i].value) && 0 !in members[i].key && MembersPrintable(members[i + 1..])
    ensures RenderMembers(members, format, depth) ==
            written + MemberText(members[i], format, depth, i + 1 == |members|)
            + RenderMembers(members[i + 1..], format, depth)
  {
    hide Printable, Render, MemberStart, MemberEnd;
    var m, rest := members[i], members[i + 1..];
    assert members[i..][1..] == rest;
    Regroup(written, MemberStart(format, depth, m.key), Render(m.value, format, depth),
            MemberEnd(format, i + 1 == |members|), RenderMembers(rest, format, depth));
  }

  lemma Regroup(a: seq<byte>, b: seq<byte>, c: seq<byte>, d: seq<byte>, e: seq<byte>)
    ensures a + (b + (c + (d + e))) == a + (b + (c + d)) + e
  {
  }

  lemma NoMemberAfter(members: seq<Member>, format: bool, depth: nat, written: seq<byte>)
    requires MembersPrintable(members)
    ensures members[|members|..] == [] && written + RenderMembers([], format, depth) == written
  {
  }

  lemma MemberCount(trees: seq<Tree>, region: set<Item>, members: seq<Member>)
    requires MemberListing(trees, region, members)
    ensures |trees| == |members|
  {
  }

  lemma EmptyPrinted()
    ensures PrintedString([]) == [QUOTE, QUOTE]
  {
  }

  lemma KeptPrefix(memory: seq<byte>, before: seq<byte>, s: seq<byte>)
    requires |before| + |s| <= |memory| && memory[..|before| + |s|] == before + s
    ensures memory[..|before|] == before
  {
    assert memory[..|before|] == memory[..|before| + |s|][..|before|];
  }

  lemma WordWritten(memory: seq<byte>, before: seq<byte>, word: seq<byte>)
    requires |before| + |word| < |memory| && memory[..|before| + |word| + 1] == before + (word + [0])
    ensures memory[..|before| + |word|] == before + word && memory[|before| + |word|] == 0
  {
    var all := before + (word + [0]);
    assert all[..|before| + |word|] == before + word;
    assert memory[..|before| + |word|] == memory[..|before| + |word| + 1][..|before| + |word|];
    assert memory[|before| + |word|] == all[|before| + |word|];
  }

  lemma SaturatedInt(d: real)
    requires IsInt(d)
    ensures Saturated(d) == d.Floor
  {
  }

  lemma NothingPrinted(s: seq<byte>)
    ensures PrintedText(s[..0]) == []
  {
  }

  lemma PrintPieceTexts(b: byte)
    ensures PrintPiece(b).Text() ==
            if b == QUOTE || b == BACKSLASH then [BACKSLASH, b]
            else if b == 0x08 then [BACKSLASH, LETTER_B]
            else if b == 0x0C then [BACKSLASH, LETTER_F]
            else if b == LF then [BACKSLASH, LETTER_N]
            else if b == CR then [BACKSLASH, LETTER_R]
            else if b == TAB then [BACKSLASH, LETTER_T]
            else if b < 32 then [BACKSLASH, LETTER_U, 0x30, 0x30, HexChar(b / 16), HexChar(b % 16)]
            else [b]
  {
  }

  lemma QuotedWritten(memory: seq<byte>, before: seq<byte>, text: seq<byte>)
    requires |before| + |text| + 2 < |memory|
    requires memory[..|before| + |text| + 3] == before + [QUOTE] + text + [QUOTE] + [0]
    ensures var s := [QUOTE] + text + [QUOTE];
            memory[..|before| + |s|] == before + s && memory[|before| + |s|] == 0
  {
    assert before + [QUOTE] + text + [QUOTE] + [0] == before + (([QUOTE] + text + [QUOTE]) + [0]);
    WordWritten(memory, before, [QUOTE] + text + [QUOTE]);
  }

  lemma RenderItemsStep(items: seq<Json>, i: nat, format: bool, depth: nat, written: seq<byte>)
    requires i < |items| && ItemsPrintable(items) && ItemsPrintable(items[i..])
    requires RenderItems(items, format, depth) == written + RenderItems(items[i..], format, depth)
    ensures Printable(items[i]) && ItemsPrintable(items[i + 1..])
    ensures var piece := Render(items[i], format, depth) + Between(format, i + 1 == |items|);
            RenderItems(items, format, depth) == written + piece + RenderItems(items[i + 1..], format, depth)
  {
    hide Printable, Render, Separator;
    assert items[i..][1..] == items[i + 1..];
  }

  lemma NothingAfter(items: seq<Json>, format: bool, depth: nat, written: seq<byte>)
    requires ItemsPrintable(items)
    ensures items[|items|..] == [] && written + RenderItems([], format, depth) == written
  {
  }

  lemma PartsPrintable(v: Json)
    requires Printable(v)
    ensures v.Array? ==> ItemsPrintable(v.items)
    ensures v.Object? ==> MembersPrintable(v.members)
  {
  }

  lemma ArrayLength(items: seq<Json>, format: bool, depth: nat)
    requires ItemsPrintable(items)
    ensures |Render(Array(items), format, depth)| == |RenderItems(items, format, depth + 1)| + 2
    ensures items == [] ==> RenderItems(items, format, depth + 1) == []
  {
  }

  /** cJSON_Print and cJSON_PrintUnformatted: exactly the text and its NUL, unless that would pass INT_MAX. */
  method Print(item: Item, ghost tree: Tree, ghost v: Json, format: bool) returns (printed: array?<byte>)
    requires tree.root == item && Holds(tree, v) && Printable(v)
    ensures printed != null <==> |Render(v, format, 0)| + 2 <= INT_MAX
    ensures printed != null ==> fresh(printed) && printed[..] == Render(v, format, 0) + [0]
  {
    hide Holds, Printable, Render;
    var p := new PrintBuffer(format);
    RenderHasNoNul(v, format, 0);
    ghost var s := Render(v, format, 0);
    var ok := p.PrintValue(item, tree, v);
    if !ok {
      return null;
    }
    assert p.buffer[|s|] == 0;
    p.UpdateOffset([], s);
    printed := new byte[p.offset + 1];
    CopyMemory(printed, 0, p.buffer[..p.offset + 1]);
    assert printed[..] == p.buffer[..p.offset] + [p.buffer[p.offset]];
  }
}
