/** Printing and parsing undo each other: the printed text of a value is one of its layouts, formatted or
    not, so it parses to the value exactly when that is nested no deeper than the limit; and whatever
    was parsed is nested that deep at most. */
module JsonRoundTrip {
  import opened Bytes
  import opened Options
  import opened JsonStrings
  import opened JsonPieces
  import opened JsonEscapes
  import opened JsonNumbers
  import opened JsonText
  import opened JsonLayouts

  // --- the layout that is printed ---

  function Break(format: bool): seq<byte> { if format then [0x0A] else [] }

  function TabsTo(format: bool, indent: nat): seq<byte> { if format then seq(indent, _ => 0x09) else [] }

  /** The blank behind a separator and behind a colon. */
  function Blank(format: bool, b: byte): seq<byte> { if format then [b] else [] }

  function LayoutOf(v: Json, format: bool, indent: nat): Layout
    requires Printable(v)
    decreases v
  {
    match v
    case Null => NullText
    case False => FalseText
    case True => TrueText
    case Number(number) => NumberText(Decimal(number.Floor))
    case String(text) => StringText(PrintPieces(text))
    case Array(items) => ArrayText([], ElementsOf(items, format, indent + 1, []))
    case Object(members) =>
      var tail := TabsTo(format, indent);
      ObjectText(Break(format) + tail, EntriesOf(members, format, indent + 1, tail))
  }

  function ElementsOf(items: seq<Json>, format: bool, indent: nat, before: seq<byte>): (r: seq<Element>)
    requires ItemsPrintable(items)
    ensures |r| == |items|
    decreases items
  {
    if items == [] then []
    else
      [Element(before, LayoutOf(items[0], format, indent), [])] +
      ElementsOf(items[1..], format, indent, Blank(format, 0x20))
  }

  /** The tail stands in front of the closing brace. */
  function EntryOf(member: Member, last: bool, format: bool, indent: nat, tail: seq<byte>): Entry
    requires Printable(member.value)
    decreases member
  {
    var after := if last then Break(format) + tail else [];
    Entry(
      Break(format) + TabsTo(format, indent), PrintPieces(member.key), [], Blank(format, 0x09),
      LayoutOf(member.value, format, indent), after)
  }

  function EntriesOf(members: seq<Member>, format: bool, indent: nat, tail: seq<byte>): (r: seq<Entry>)
    requires MembersPrintable(members)
    ensures |r| == |members|
    decreases members
  {
    if members == [] then []
    else
      [EntryOf(members[0], |members| == 1, format, indent, tail)] + EntriesOf(members[1..], format, indent, tail)
  }

  lemma TabsAreIndentation(format: bool, indent: nat)
    ensures Indentation(format, indent) == TabsTo(format, indent)
  {
    assert format ==> Tabs(indent) == seq(indent, _ => 0x09);
  }

  ghost predicate Lays(w: Layout, v: Json, s: seq<byte>) { Valid(w) && Value(w) == v && Text(w) == s }

  /** Printing lays the value out. */
  lemma {:induction false} PrintedLayout(v: Json, format: bool, indent: nat)
    requires Printable(v)
    ensures Lays(LayoutOf(v, format, indent), v, Render(v, format, indent))
    decreases v, 1
  {
    match v {
      case Number(number) => PrintedNumber(number.Floor);
      case String(text) => PrintPiecesMean(text);
      case Array(items) => PrintedArray(items, format, indent);
      case Object(members) => PrintedObject(members, format, indent);
      case _ =>
    }
  }

  lemma PrintedNumber(n: int)
    requires INT_MIN <= n <= INT_MAX
    ensures IsNumber(Decimal(n)) && Strtod(Decimal(n)).0 == n as real
  {
    hide Decimal, Strtod;
    DecimalLength(n);
    StrtodOfDecimal(n);
  }

  lemma PrintedArray(items: seq<Json>, format: bool, indent: nat)
    requires ItemsPrintable(items)
    ensures Lays(LayoutOf(Array(items), format, indent), Array(items), Render(Array(items), format, indent))
    decreases items, 1
  {
    hide ElementsOf, ElementsText, RenderItems, Values, ElementsValid;
    PrintedElements(items, format, indent + 1, []);
    if items == [] {
      NothingPrinted(format, indent + 1, [], []);
    }
  }

  lemma NothingPrinted(format: bool, indent: nat, before: seq<byte>, tail: seq<byte>)
    ensures ElementsOf([], format, indent, before) == [] && ElementsText([]) == [] && ElementsValid([])
    ensures EntriesOf([], format, indent, tail) == [] && EntriesText([]) == [] && EntriesValid([])
    ensures RenderItems([], format, indent) == [] && RenderMembers([], format, indent) == []
    ensures Values([]) == [] && MembersOf([]) == []
  {
  }

  lemma {:induction false} PrintedElements(items: seq<Json>, format: bool, indent: nat, before: seq<byte>)
    requires ItemsPrintable(items) && IsBlank(before)
    ensures var elements := ElementsOf(items, format, indent, before);
            && ElementsValid(elements) && Values(elements) == items
            && ElementsText(elements) == if items == [] then [] else before + RenderItems(items, format, indent)
    decreases items, 0
  {
    if items == [] {
      NothingPrinted(format, indent, before, []);
    } else {
      PrintedLayout(items[0], format, indent);
      PrintedElements(items[1..], format, indent, Blank(format, SPACE));
      PrintedElement(items, format, indent, before);
    }
  }

  lemma PrintedElement(items: seq<Json>, format: bool, indent: nat, before: seq<byte>)
    requires items != [] && ItemsPrintable(items) && IsBlank(before)
    requires Lays(LayoutOf(items[0], format, indent), items[0], Render(items[0], format, indent))
    requires var rest := ElementsOf(items[1..], format, indent, Blank(format, SPACE));
             && ElementsValid(rest) && Values(rest) == items[1..]
             && ElementsText(rest) ==
                if items[1..] == [] then [] else Blank(format, SPACE) + RenderItems(items[1..], format, indent)
    ensures var elements := ElementsOf(items, format, indent, before);
            && ElementsValid(elements) && Values(elements) == items
            && ElementsText(elements) == before + RenderItems(items, format, indent)
  {
    var e := Element(before, LayoutOf(items[0], format, indent), []);
    var rest := ElementsOf(items[1..], format, indent, Blank(format, SPACE));
    assert ElementsOf(items, format, indent, before) == [e] + rest;
    hide LayoutOf, Render, RenderItems, Valid, Value, Text, Values, ElementsValid, ElementsText, ElementsOf;
    hide ItemsPrintable, Blank;
    assert items == [items[0]] + items[1..];
    ItemsText(items, format, indent);
    ElementsCons(e, rest);
    NothingBehind(before, Text(e.value), if rest == [] then [] else [COMMA] + ElementsText(rest));
  }

  lemma NothingBehind(before: seq<byte>, text: seq<byte>, more: seq<byte>)
    ensures before + (text + ([] + more)) == before + (text + more)
  {
    assert [] + more == more;
  }

  lemma ItemsText(items: seq<Json>, format: bool, indent: nat)
    requires items != [] && ItemsPrintable(items)
    ensures RenderItems(items, format, indent) ==
            Render(items[0], format, indent) +
            if |items| == 1 then [] else [COMMA] + (Blank(format, SPACE) + RenderItems(items[1..], format, indent))
  {
    hide Render;
    if |items| == 1 {
      assert items[1..] == [];
    } else {
      ConcatAssoc([COMMA], Blank(format, SPACE), RenderItems(items[1..], format, indent));
      assert Separator(format) == [COMMA] + Blank(format, SPACE);
    }
  }

  lemma PrintedObject(members: seq<Member>, format: bool, indent: nat)
    requires MembersPrintable(members)
    ensures Lays(LayoutOf(Object(members), format, indent), Object(members), Render(Object(members), format, indent))
    decreases members, 1
  {
    hide EntriesOf, EntriesText, RenderMembers, MembersOf, EntriesValid;
    var tail := Indentation(format, indent);
    TabsAreIndentation(format, indent);
    PrintedEntries(members, format, indent + 1, tail);
    if members == [] {
      NothingPrinted(format, indent + 1, [], tail);
    }
    BetweenBraces(format, RenderMembers(members, format, indent + 1), tail);
  }

  lemma BetweenBraces(format: bool, text: seq<byte>, tail: seq<byte>)
    ensures Open(format) + (text + (tail + [CLOSE_OBJECT])) ==
            [OPEN_OBJECT] + ((Break(format) + (text + tail)) + [CLOSE_OBJECT])
  {
    ConcatAssoc(text, tail, [CLOSE_OBJECT]);
    ConcatAssoc([OPEN_OBJECT], Break(format), text + tail + [CLOSE_OBJECT]);
    ConcatAssoc(Break(format), text + tail, [CLOSE_OBJECT]);
  }

  lemma {:induction false} PrintedEntries(members: seq<Member>, format: bool, indent: nat, tail: seq<byte>)
    requires MembersPrintable(members) && IsBlank(tail)
    ensures var entries := EntriesOf(members, format, indent, tail);
            && EntriesValid(entries) && MembersOf(entries) == members
            && EntriesText(entries) ==
               if members == [] then [] else Break(format) + (RenderMembers(members, format, indent) + tail)
    decreases members, 0
  {
    if members == [] {
      NothingPrinted(format, indent, [], tail);
    } else {
      PrintedLayout(members[0].value, format, indent);
      PrintedEntries(members[1..], format, indent, tail);
      PrintedEntry(members, format, indent, tail);
    }
  }

  lemma PrintedEntry(members: seq<Member>, format: bool, indent: nat, tail: seq<byte>)
    requires members != [] && MembersPrintable(members) && IsBlank(tail)
    requires var v := members[0].value; Lays(LayoutOf(v, format, indent), v, Render(v, format, indent))
    requires var rest := EntriesOf(members[1..], format, indent, tail);
             && EntriesValid(rest) && MembersOf(rest) == members[1..]
             && EntriesText(rest) ==
                if members[1..] == [] then [] else Break(format) + (RenderMembers(members[1..], format, indent) + tail)
    ensures var entries := EntriesOf(members, format, indent, tail);
            && EntriesValid(entries) && MembersOf(entries) == members
            && EntriesText(entries) == Break(format) + (RenderMembers(members, format, indent) + tail)
  {
    var e := EntryOf(members[0], |members| == 1, format, indent, tail);
    var rest := EntriesOf(members[1..], format, indent, tail);
    assert EntriesOf(members, format, indent, tail) == [e] + rest;
    hide LayoutOf, Render, RenderMembers, Valid, Value, Text, MembersOf, EntriesValid, EntriesText, EntriesOf;
    hide EntryOf, IsBlank, IsString, Meaning, Quoted, MembersPrintable, Break;
    assert members == [members[0]] + members[1..];
    EntryParts(members[0], |members| == 1, format, indent, tail);
    EntryText(members, format, indent, tail);
    EntriesCons(e, rest);
  }

  lemma EntryParts(member: Member, last: bool, format: bool, indent: nat, tail: seq<byte>)
    requires Printable(member.value) && 0 !in member.key && IsBlank(tail)
    requires Valid(LayoutOf(member.value, format, indent))
    ensures var e := EntryOf(member, last, format, indent, tail);
            && IsBlank(e.before) && IsBlank(e.beforeColon) && IsBlank(e.afterColon) && IsBlank(e.after)
            && IsString(e.name) && Meaning(e.name) == Some(member.key)
            && e.value == LayoutOf(member.value, format, indent) && Valid(e.value)
  {
    hide LayoutOf, Render, Valid, Meaning, PrintPieces;
    PrintPiecesMean(member.key);
  }

  /** The text of members with the tail behind them, regrouped by the parts of an entry. */
  lemma EntryText(members: seq<Member>, format: bool, indent: nat, tail: seq<byte>)
    requires members != [] && MembersPrintable(members)
    ensures var e := EntryOf(members[0], |members| == 1, format, indent, tail);
            var more := if |members| == 1 then []
                        else [COMMA] + (Break(format) + (RenderMembers(members[1..], format, indent) + tail));
            Break(format) + (RenderMembers(members, format, indent) + tail) ==
            e.before + (Quoted(e.name) + (e.beforeColon + ([COLON] + (e.afterColon +
            (Render(members[0].value, format, indent) + (e.after + more))))))
  {
    hide Indentation, TabsTo, RenderMembers, PrintPieces, TextOf, Break, Blank;
    TabsAreIndentation(format, indent);
    MembersText(members, format, indent);
    MemberEndText(members, format, indent, tail);
    hide Render, MemberEnd;
    Regroup(
      Break(format), Indentation(format, indent), Quoted(PrintPieces(members[0].key)), Blank(format, TAB),
      Render(members[0].value, format, indent),
      MemberEnd(format, |members| == 1) + RenderMembers(members[1..], format, indent), tail);
  }

  lemma MembersText(members: seq<Member>, format: bool, indent: nat)
    requires members != [] && MembersPrintable(members)
    ensures RenderMembers(members, format, indent) ==
            (Indentation(format, indent) + (Quoted(PrintPieces(members[0].key)) + ([COLON] + Blank(format, TAB)))) +
            (Render(members[0].value, format, indent) +
            (MemberEnd(format, |members| == 1) + RenderMembers(members[1..], format, indent)))
  {
    hide Render, Indentation, PrintPieces, TextOf, MemberEnd;
    assert Colon(format) == [COLON] + Blank(format, TAB);
  }

  lemma MemberEndText(members: seq<Member>, format: bool, indent: nat, tail: seq<byte>)
    requires members != [] && MembersPrintable(members)
    ensures var rest := RenderMembers(members[1..], format, indent);
            (MemberEnd(format, |members| == 1) + rest) + tail ==
            if |members| == 1 then (Break(format) + tail) + [] else [] + ([COMMA] + (Break(format) + (rest + tail)))
  {
    hide Render;
    if |members| == 1 {
      assert members[1..] == [];
    } else {
      hide RenderMembers;
      ConcatAssoc([COMMA], Break(format), RenderMembers(members[1..], format, indent) + tail);
    }
  }

  lemma Regroup(br: seq<byte>, tabs: seq<byte>, name: seq<byte>, blank: seq<byte>, value: seq<byte>, more: seq<byte>,
                tail: seq<byte>)
    ensures br + (((tabs + (name + ([COLON] + blank))) + (value + more)) + tail) ==
            (br + tabs) + (name + ([] + ([COLON] + (blank + (value + (more + tail))))))
  {
    ConcatAssoc(value, more, tail);
    var end := value + more + tail;
    ConcatAssoc([COLON], blank, end);
    ConcatAssoc(name, [COLON] + blank, end);
    ConcatAssoc(tabs, name + ([COLON] + blank), end);
    ConcatAssoc(tabs + (name + ([COLON] + blank)), value + more, tail);
    ConcatAssoc(br, tabs, name + ([COLON] + (blank + end)));
  }

  // --- parsing what was printed ---

  lemma LayoutOfPrinted(v: Json, format: bool, indent: nat)
    requires Printable(v)
    ensures Lays(LayoutOf(v, format, indent), v, Render(v, format, indent))
    ensures var s := Render(v, format, indent); s != [] && 0 !in s
  {
    hide LayoutOf, Render, Valid, Value, Text;
    PrintedLayout(v, format, indent);
    TextStarts(LayoutOf(v, format, indent));
    RenderHasNoNul(v, format, indent);
  }

  /** Printed text gives its value back wherever it stands, if and only if the limit allows that at the
      depth. */
  lemma ValueParses(v: Json, format: bool, indent: nat, t: seq<byte>, offset: nat, depth: int)
    requires Printable(v) && Stands(t, offset, Render(v, format, indent)) && depth <= NESTING_LIMIT
    ensures Parses(t, offset, depth, v, offset + |Render(v, format, indent)|)
  {
    hide LayoutOf, Render, Valid, Value, Text, Stands, Parses;
    LayoutOfPrinted(v, format, indent);
    LayoutParses(LayoutOf(v, format, indent), t, offset, depth);
  }

  /** Parsing the whole printed text gives the value back and consumes all of it, if and only if the value
      is nested within the limit; formatting makes no difference. */
  lemma ParsingUndoesPrinting(v: Json, format: bool)
    requires Printable(v)
    ensures var text := Render(v, format, 0);
            Parse(text) == if Nesting(v) <= 1000 then Done(v, |text|) else Fail
  {
    hide LayoutOf, Render, Valid, Value, Text, Parse, Nesting;
    LayoutOfPrinted(v, format, 0);
    assert [] + [] + Render(v, format, 0) + [] == Render(v, format, 0);
    LayoutTextParses([], [], LayoutOf(v, format, 0), []);
  }

  /** Formatted and unformatted text of printable values tell them apart, however deep they are nested: both
      parse alike from a depth that leaves room for either. */
  lemma PrintedTextDeterminesValue(v: Json, w: Json, format: bool, otherFormat: bool)
    requires Printable(v) && Printable(w)
    requires Render(v, format, 0) == Render(w, otherFormat, 0)
    ensures v == w
  {
    hide Render, Nesting, Printable, ParseValue, Stands;
    var s := Render(v, format, 0);
    var depth := NESTING_LIMIT - Nesting(v) - Nesting(w);
    LayoutOfPrinted(v, format, 0);
    StandsAlone(s);
    ValueParses(v, format, 0, s + [0], 0, depth);
    ValueParses(w, otherFormat, 0, s + [0], 0, depth);
  }

  lemma StandsAlone(s: seq<byte>)
    requires s != []
    ensures Stands(s + [0], 0, s)
  {
    assert (s + [0])[0..|s|] == s;
  }

  // --- printing what was parsed ---

  lemma {:induction false} ParsedValueIsShallow(t: seq<byte>, offset: nat, depth: int)
    requires Terminated(t) && offset < |t| && depth <= NESTING_LIMIT
    ensures var r := ParseValue(t, offset, depth); r.Done? ==> depth + Nesting(r.value) <= NESTING_LIMIT
    decreases |t| - offset, 2
  {
    hide ParseItems, ParseMembers, ItemsNesting, MembersNesting, SkipWhitespace, Occurs, StringAtOffset, NumberAt;
    if depth < NESTING_LIMIT {
      if t[offset] == OPEN_ARRAY {
        NothingNested();
        ParsedItemsAreShallow(t, SkipWhitespace(t, offset + 1), depth + 1);
      } else if t[offset] == OPEN_OBJECT {
        NothingNested();
        ParsedMembersAreShallow(t, SkipWhitespace(t, offset + 1), depth + 1);
      }
    }
  }

  lemma NothingNested()
    ensures ItemsNesting([]) == 0 && MembersNesting([]) == 0
  {
  }

  lemma {:induction false} ParsedItemsAreShallow(t: seq<byte>, offset: nat, depth: int)
    requires Terminated(t) && offset < |t| && depth <= NESTING_LIMIT
    ensures var r := ParseItems(t, offset, depth); r.Items? ==> depth + ItemsNesting(r.items) <= NESTING_LIMIT
    decreases |t| - offset, 3
  {
    hide ParseValue, Nesting, SkipWhitespace;
    var first := ParseValue(t, SkipWhitespace(t, offset), depth);
    ParsedValueIsShallow(t, SkipWhitespace(t, offset), depth);
    NothingNested();
    if first.Done? {
      var after := SkipWhitespace(t, first.next);
      ItemsNestingStep(first.value, []);
      if t[after] == COMMA {
        ParsedItemsAreShallow(t, after + 1, depth);
        var rest := ParseItems(t, after + 1, depth);
        if rest.Items? {
          ItemsNestingStep(first.value, rest.items);
        }
      }
    }
  }

  lemma ItemsNestingStep(v: Json, rest: seq<Json>)
    ensures ItemsNesting([v] + rest) == Max(Nesting(v), ItemsNesting(rest))
  {
    hide Nesting;
    assert ([v] + rest)[1..] == rest;
  }

  lemma {:induction false} ParsedMembersAreShallow(t: seq<byte>, offset: nat, depth: int)
    requires Terminated(t) && offset < |t| && depth <= NESTING_LIMIT
    ensures var r := ParseMembers(t, offset, depth);
            r.Members? ==> depth + MembersNesting(r.members) <= NESTING_LIMIT
    decreases |t| - offset, 3
  {
    hide ParseValue, ParseName, Nesting, SkipWhitespace;
    var name := ParseName(t, offset);
    NothingNested();
    if name.Some? {
      var start := SkipWhitespace(t, name.value.1);
      var first := ParseValue(t, start, depth);
      ParsedValueIsShallow(t, start, depth);
      if first.Done? {
        var member := Member(name.value.0, first.value);
        var after := SkipWhitespace(t, first.next);
        MembersNestingStep(member, []);
        if t[after] == COMMA {
          ParsedMembersAreShallow(t, after + 1, depth);
          var rest := ParseMembers(t, after + 1, depth);
          if rest.Members? {
            MembersNestingStep(member, rest.members);
          }
        }
      }
    }
  }

  lemma MembersNestingStep(member: Member, rest: seq<Member>)
    ensures MembersNesting([member] + rest) == Max(Nesting(member.value), MembersNesting(rest))
  {
    hide Nesting;
    assert ([member] + rest)[1..] == rest;
  }

  lemma ParsedIsShallow(text: seq<byte>)
    requires Parse(text).Done?
    ensures Nesting(Parse(text).value) <= NESTING_LIMIT
  {
    hide ParseValue, Nesting, SkipWhitespace, Occurs;
    var t := CString(text) + [0];
    var start := if 4 < |t| && Occurs(t, 0, BYTE_ORDER_MARK) then 3 else 0;
    ParsedValueIsShallow(t, SkipWhitespace(t, start), 0);
  }

  /** Printing what was parsed and parsing that gives the same value again, whatever the text and the
      format: the limit cannot get in the way. */
  lemma PrintingUndoesParsing(text: seq<byte>, format: bool)
    requires Parse(text).Done? && Printable(Parse(text).value)
    ensures var v := Parse(text).value; Parse(Render(v, format, 0)) == Done(v, |Render(v, format, 0)|)
  {
    hide Parse, Render, Nesting, Printable;
    ParsedIsShallow(text);
    ParsingUndoesPrinting(Parse(text).value, format);
  }
}
