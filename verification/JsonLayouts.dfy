/** Layouts: the texts of JSON values that cJSON accepts. They hold those of RFC 8259, and more: any byte up to
    the space is a blank, strings may hold control bytes and \u without four hex digits, and any number text
    that strtod reads to its end will do (JsonNumerals says which these are). The parser gives each of them its
    value, if and only if it is nested no deeper than the limit. */
module JsonLayouts {
  import opened Bytes
  import opened Options
  import opened Utf8
  import opened JsonStrings
  import opened JsonPieces
  import opened JsonNumbers
  import opened JsonText

  datatype Layout =
    | NullText
    | FalseText
    | TrueText
    | NumberText(text: seq<byte>)
    | StringText(pieces: seq<Piece>)
    | ArrayText(blank: seq<byte>, elements: seq<Element>)
    | ObjectText(blank: seq<byte>, entries: seq<Entry>)

  /** The blanks around a value and around the name of a member; those of a container without values are
      its own. */
  datatype Element = Element(before: seq<byte>, value: Layout, after: seq<byte>)

  datatype Entry = Entry(
    before: seq<byte>, name: seq<Piece>, beforeColon: seq<byte>, afterColon: seq<byte>,
    value: Layout, after: seq<byte>)

  predicate IsBlank(s: seq<byte>) { forall k :: 0 <= k < |s| ==> s[k] <= 32 }

  predicate IsNumber(s: seq<byte>) {
    && 0 < |s| <= 63 && (s[0] == MINUS || IsDigit(s[0])) && (forall k :: 0 <= k < |s| ==> IsNumberChar(s[k]))
    && Strtod(s).1 == |s|
  }

  /** Pieces without a lone surrogate, which are those that mean something. */
  ghost predicate IsString(pieces: seq<Piece>): (b: bool)
    ensures b <==> AllValid(pieces) && Meaning(pieces).Some?
  {
    if AllValid(pieces) then
      NoMeaningIffLone(pieces);
      !HasLone(pieces)
    else false
  }

  ghost predicate Valid(w: Layout)
    decreases w
  {
    match w
    case NumberText(text) => IsNumber(text)
    case StringText(pieces) => IsString(pieces)
    case ArrayText(blank, elements) => IsBlank(blank) && ElementsValid(elements)
    case ObjectText(blank, entries) => IsBlank(blank) && EntriesValid(entries)
    case _ => true
  }

  ghost predicate ElementsValid(elements: seq<Element>)
    decreases elements
  {
    elements != [] ==>
      var e := elements[0];
      IsBlank(e.before) && Valid(e.value) && IsBlank(e.after) && ElementsValid(elements[1..])
  }

  ghost predicate EntriesValid(entries: seq<Entry>)
    decreases entries
  {
    entries != [] ==>
      var e := entries[0];
      && IsBlank(e.before) && IsString(e.name) && IsBlank(e.beforeColon) && IsBlank(e.afterColon)
      && Valid(e.value) && IsBlank(e.after) && EntriesValid(entries[1..])
  }

  function Quoted(pieces: seq<Piece>): seq<byte> { [0x22] + TextOf(pieces) + [0x22] }

  function Text(w: Layout): seq<byte>
    decreases w
  {
    match w
    case NullText => [0x6E, 0x75, 0x6C, 0x6C]
    case FalseText => [0x66, 0x61, 0x6C, 0x73, 0x65]
    case TrueText => [0x74, 0x72, 0x75, 0x65]
    case NumberText(text) => text
    case StringText(pieces) => Quoted(pieces)
    case ArrayText(blank, elements) =>
      [0x5B] + ((if elements == [] then blank else ElementsText(elements)) + [0x5D])
    case ObjectText(blank, entries) =>
      [0x7B] + ((if entries == [] then blank else EntriesText(entries)) + [0x7D])
  }

  function ElementsText(elements: seq<Element>): seq<byte>
    decreases elements
  {
    if elements == [] then []
    else
      var e := elements[0];
      e.before + (Text(e.value) + (e.after + MoreElements(elements)))
  }

  function MoreElements(elements: seq<Element>): seq<byte>
    requires elements != []
    decreases elements, 0
  {
    if |elements| == 1 then [] else [0x2C] + ElementsText(elements[1..])
  }

  function EntriesText(entries: seq<Entry>): seq<byte>
    decreases entries
  {
    if entries == [] then []
    else
      var e := entries[0];
      e.before + (Quoted(e.name) + (e.beforeColon + ([0x3A] + (e.afterColon +
      (Text(e.value) + (e.after + MoreEntries(entries)))))))
  }

  function MoreEntries(entries: seq<Entry>): seq<byte>
    requires entries != []
    decreases entries, 0
  {
    if |entries| == 1 then [] else [0x2C] + EntriesText(entries[1..])
  }

  ghost function Value(w: Layout): Json
    requires Valid(w)
    decreases w
  {
    match w
    case NullText => Null
    case FalseText => False
    case TrueText => True
    case NumberText(text) => Number(Strtod(text).0)
    case StringText(pieces) => String(Meaning(pieces).value)
    case ArrayText(_, elements) => Array(Values(elements))
    case ObjectText(_, entries) => Object(MembersOf(entries))
  }

  ghost function Values(elements: seq<Element>): seq<Json>
    requires ElementsValid(elements)
    decreases elements
  {
    if elements == [] then [] else [Value(elements[0].value)] + Values(elements[1..])
  }

  ghost function MembersOf(entries: seq<Entry>): seq<Member>
    requires EntriesValid(entries)
    decreases entries
  {
    if entries == [] then []
    else [Member(Meaning(entries[0].name).value, Value(entries[0].value))] + MembersOf(entries[1..])
  }

  lemma ElementsCons(e: Element, rest: seq<Element>)
    requires IsBlank(e.before) && Valid(e.value) && IsBlank(e.after) && ElementsValid(rest)
    ensures var all := [e] + rest;
            && ElementsValid(all) && Values(all) == [Value(e.value)] + Values(rest)
            && ElementsText(all) ==
               e.before + (Text(e.value) + (e.after + if rest == [] then [] else [COMMA] + ElementsText(rest)))
  {
    hide Valid, Value, Text;
    assert ([e] + rest)[1..] == rest;
  }

  lemma EntriesCons(e: Entry, rest: seq<Entry>)
    requires IsBlank(e.before) && IsString(e.name) && IsBlank(e.beforeColon) && IsBlank(e.afterColon)
    requires Valid(e.value) && IsBlank(e.after) && EntriesValid(rest)
    ensures var all := [e] + rest;
            && EntriesValid(all) && MembersOf(all) == [Member(Meaning(e.name).value, Value(e.value))] + MembersOf(rest)
            && EntriesText(all) ==
               e.before + (Quoted(e.name) + (e.beforeColon + ([COLON] + (e.afterColon +
               (Text(e.value) + (e.after + if rest == [] then [] else [COMMA] + EntriesText(rest)))))))
  {
    hide Valid, Value, Text, Meaning, Quoted, IsString;
    assert ([e] + rest)[1..] == rest;
  }

  // --- over blanks ---

  lemma {:induction false} SkipOver(t: seq<byte>, offset: nat, blank: seq<byte>)
    requires Occurs(t, offset, blank) && IsBlank(blank)
    requires offset + |blank| < |t|
    ensures SkipWhitespace(t, offset) == SkipWhitespace(t, offset + |blank|)
    decreases |blank|
  {
    if blank != [] {
      OccursAt(t, offset, blank, 0);
      assert [blank[0]] + blank[1..] == blank;
      OccursSplit(t, offset, [blank[0]], blank[1..]);
      SkipOver(t, offset + 1, blank[1..]);
    }
  }

  lemma SkipNothing(t: seq<byte>, offset: nat)
    requires offset < |t| && t[offset] > 32
    ensures SkipWhitespace(t, offset) == offset
  {
  }

  /** Blanks, and then a byte that is none. */
  lemma SkipTo(t: seq<byte>, offset: nat, blank: seq<byte>)
    requires Occurs(t, offset, blank) && IsBlank(blank) && offset + |blank| < |t| && t[offset + |blank|] > 32
    ensures SkipWhitespace(t, offset) == offset + |blank|
    ensures !IsNumberChar(t[offset + |blank|]) ==> !IsNumberChar(t[offset])
  {
    hide SkipWhitespace, Occurs;
    SkipOver(t, offset, blank);
    SkipNothing(t, offset + |blank|);
    if blank != [] {
      OccursAt(t, offset, blank, 0);
    }
  }

  lemma {:induction false} SkipTwice(t: seq<byte>, offset: nat)
    requires offset < |t|
    ensures SkipWhitespace(t, SkipWhitespace(t, offset)) == SkipWhitespace(t, offset)
    decreases |t| - offset
  {
    if t[offset] <= 32 && offset + 1 < |t| {
      SkipTwice(t, offset + 1);
    }
  }

  // --- values ---

  lemma TextStarts(w: Layout)
    requires Valid(w)
    ensures var s := Text(w); s != [] && 32 < s[0] < 128 && s[0] != CLOSE_ARRAY
    ensures w.StringText? ==> Text(w)[0] == QUOTE
    ensures w.NumberText? ==> Text(w)[0] == MINUS || IsDigit(Text(w)[0])
  {
    hide TextOf, ElementsText, EntriesText, Strtod;
  }

  /** The three words are recognised by their first letter. */
  lemma NoWord(t: seq<byte>, offset: nat)
    requires offset < |t|
    ensures t[offset] != NULL_TEXT[0] ==> !Occurs(t, offset, NULL_TEXT)
    ensures t[offset] != FALSE_TEXT[0] ==> !Occurs(t, offset, FALSE_TEXT)
    ensures t[offset] != TRUE_TEXT[0] ==> !Occurs(t, offset, TRUE_TEXT)
  {
    if Occurs(t, offset, NULL_TEXT) {
      OccursAt(t, offset, NULL_TEXT, 0);
    }
    if Occurs(t, offset, FALSE_TEXT) {
      OccursAt(t, offset, FALSE_TEXT, 0);
    }
    if Occurs(t, offset, TRUE_TEXT) {
      OccursAt(t, offset, TRUE_TEXT, 0);
    }
  }

  /** Where a text stands, with something behind it that does not continue a number. */
  ghost predicate Stands(t: seq<byte>, offset: nat, s: seq<byte>) {
    Terminated(t) && s != [] && Occurs(t, offset, s) && offset + |s| < |t| && !IsNumberChar(t[offset + |s|])
  }

  ghost predicate Parses(t: seq<byte>, offset: nat, depth: int, v: Json, next: nat)
    requires Terminated(t) && offset < |t|
  {
    ParseValue(t, offset, depth) == if depth + Nesting(v) <= NESTING_LIMIT then Done(v, next) else Fail
  }

  /** Wherever the text of a layout stands. */
  lemma {:induction false} LayoutParses(w: Layout, t: seq<byte>, offset: nat, depth: int)
    requires Valid(w) && Stands(t, offset, Text(w)) && depth <= NESTING_LIMIT
    ensures Parses(t, offset, depth, Value(w), offset + |Text(w)|)
    decreases w, 1
  {
    hide Valid, Text, Value, Stands, Parses;
    if w.ArrayText? {
      ArrayParses(w, t, offset, depth);
    } else if w.ObjectText? {
      ObjectParses(w, t, offset, depth);
    } else {
      ScalarParses(w, t, offset, depth);
    }
  }

  lemma ScalarParses(w: Layout, t: seq<byte>, offset: nat, depth: int)
    requires !w.ArrayText? && !w.ObjectText? && depth <= NESTING_LIMIT
    requires Valid(w) && Stands(t, offset, Text(w))
    ensures Parses(t, offset, depth, Value(w), offset + |Text(w)|)
  {
    hide Occurs, Quoted, Meaning, StringAtOffset, NumberAt, Strtod, IsNumber;
    TextStarts(w);
    OccursAt(t, offset, Text(w), 0);
    NoWord(t, offset);
    match w {
      case NumberText(text) => NumberParses(t, offset, text);
      case StringText(pieces) => QuotedParses(t, offset, pieces);
      case _ =>
    }
  }

  lemma NumberParses(t: seq<byte>, offset: nat, s: seq<byte>)
    requires IsNumber(s) && Stands(t, offset, s)
    ensures s != [] && NumberAt(t, offset) == (Strtod(s).0, |s|)
  {
    hide Strtod;
    NumberEndIs(t, offset, 63, s);
  }

  lemma QuotedParses(t: seq<byte>, offset: nat, pieces: seq<Piece>)
    requires IsString(pieces) && Occurs(t, offset, Quoted(pieces))
    ensures StringAtOffset(t, offset) == Some((Meaning(pieces).value, offset + |Quoted(pieces)|))
  {
    hide Meaning, TextOf;
    LiteralParses(t, offset, pieces);
  }

  lemma ContainerAt(t: seq<byte>, offset: nat, depth: int)
    requires Terminated(t) && offset < |t|
    ensures t[offset] == OPEN_ARRAY ==> ParseValue(t, offset, depth) == ParseArray(t, offset, depth)
    ensures t[offset] == OPEN_OBJECT ==> ParseValue(t, offset, depth) == ParseObject(t, offset, depth)
  {
    hide Occurs, ParseArray, ParseObject, StringAtOffset, NumberAt;
    NoWord(t, offset);
  }

  /** The two brackets of a container and what stands between them. */
  lemma Brackets(t: seq<byte>, offset: nat, open: byte, inside: seq<byte>, close: byte)
    requires Occurs(t, offset, [open] + (inside + [close]))
    ensures var end := offset + 1 + |inside|;
            end < |t| && t[offset] == open && Occurs(t, offset + 1, inside) && t[end] == close
  {
    hide Occurs;
    OccursSplit(t, offset, [open], inside + [close]);
    OccursAt(t, offset, [open], 0);
    OccursSplit(t, offset + 1, inside, [close]);
    OccursAt(t, offset + 1 + |inside|, [close], 0);
  }

  // --- arrays ---

  lemma ArrayParses(w: Layout, t: seq<byte>, offset: nat, depth: int)
    requires w.ArrayText? && depth <= NESTING_LIMIT
    requires Valid(w) && Stands(t, offset, Text(w))
    ensures Parses(t, offset, depth, Value(w), offset + |Text(w)|)
    decreases w, 0
  {
    hide Occurs, ElementsText, ElementsValid, Values, ParseItems, SkipWhitespace, ParseValue, ItemsNesting;
    hide IsNumberChar;
    var elements, o := w.elements, offset + 1;
    var inside := if elements == [] then w.blank else ElementsText(elements);
    Brackets(t, offset, OPEN_ARRAY, inside, CLOSE_ARRAY);
    ContainerAt(t, offset, depth);
    if elements == [] {
      NoElements();
      SkipTo(t, o, w.blank);
    } else {
      FirstElement(elements, t, o);
      SkipTwice(t, o);
      if depth < NESTING_LIMIT {
        ElementsParse(elements, t, SkipWhitespace(t, o), o, depth + 1);
      }
    }
  }

  lemma NoElements()
    ensures ElementsValid([]) && Values([]) == [] && ItemsNesting([]) == 0
  {
  }

  /** Where the first element ends, behind its blanks. */
  function ElementEnd(elements: seq<Element>, o: nat): nat
    requires elements != []
  {
    o + |elements[0].before| + |Text(elements[0].value)| + |elements[0].after|
  }

  lemma ElementOccurs(elements: seq<Element>, t: seq<byte>, o: nat)
    requires elements != [] && Occurs(t, o, ElementsText(elements))
    ensures var e, x := elements[0], o + |elements[0].before|;
            && Occurs(t, o, e.before) && Occurs(t, x, Text(e.value)) && Occurs(t, x + |Text(e.value)|, e.after)
            && Occurs(t, ElementEnd(elements, o), MoreElements(elements))
            && o + |ElementsText(elements)| == ElementEnd(elements, o) + |MoreElements(elements)|
  {
    hide Occurs, Text, MoreElements;
    var e, x, more := elements[0], o + |elements[0].before|, MoreElements(elements);
    OccursSplit(t, o, e.before, Text(e.value) + (e.after + more));
    OccursSplit(t, x, Text(e.value), e.after + more);
    OccursSplit(t, x + |Text(e.value)|, e.after, more);
  }

  lemma FirstElement(elements: seq<Element>, t: seq<byte>, o: nat)
    requires elements != [] && ElementsValid(elements) && Occurs(t, o, ElementsText(elements))
    ensures o < |t| && t[SkipWhitespace(t, o)] != CLOSE_ARRAY
  {
    hide Occurs, SkipWhitespace, Valid, Text, ElementsText, MoreElements;
    var e := elements[0];
    ElementOccurs(elements, t, o);
    TextStarts(e.value);
    OccursAt(t, o + |e.before|, Text(e.value), 0);
    SkipTo(t, o, e.before);
  }

  lemma ElementStands(elements: seq<Element>, t: seq<byte>, o: nat)
    requires elements != [] && ElementsValid(elements) && Terminated(t) && Occurs(t, o, ElementsText(elements))
    requires var end := o + |ElementsText(elements)|; end < |t| && t[end] == CLOSE_ARRAY
    ensures var e := elements[0];
            var x, m := o + |e.before|, ElementEnd(elements, o);
            && Valid(e.value) && ElementsValid(elements[1..])
            && SkipWhitespace(t, o) == x && Stands(t, x, Text(e.value)) && m < |t|
            && SkipWhitespace(t, x + |Text(e.value)|) == m
            && (|elements| == 1 ==> m == o + |ElementsText(elements)|)
            && (|elements| > 1 ==>
                  && t[m] == COMMA && m + 1 < |t| && Occurs(t, m + 1, ElementsText(elements[1..]))
                  && m + 1 + |ElementsText(elements[1..])| == o + |ElementsText(elements)|)
  {
    hide Occurs, SkipWhitespace, Valid, Text, ElementsText;
    var e, x, m := elements[0], o + |elements[0].before|, ElementEnd(elements, o);
    ElementOccurs(elements, t, o);
    TextStarts(e.value);
    OccursAt(t, x, Text(e.value), 0);
    SkipTo(t, o, e.before);
    if |elements| > 1 {
      OccursAt(t, m, MoreElements(elements), 0);
      OccursSplit(t, m, [COMMA], ElementsText(elements[1..]));
    }
    SkipTo(t, x + |Text(e.value)|, e.after);
  }

  /** The elements and their closing bracket, from wherever blanks lead to them. */
  lemma {:induction false} ElementsParse(elements: seq<Element>, t: seq<byte>, offset: nat, o: nat, depth: int)
    requires elements != [] && ElementsValid(elements) && Terminated(t) && depth <= NESTING_LIMIT
    requires Occurs(t, o, ElementsText(elements))
    requires var end := o + |ElementsText(elements)|; end < |t| && t[end] == CLOSE_ARRAY
    requires offset < |t| && SkipWhitespace(t, offset) == SkipWhitespace(t, o)
    ensures ParseItems(t, offset, depth) ==
            if depth + ItemsNesting(Values(elements)) <= NESTING_LIMIT
            then Items(Values(elements), o + |ElementsText(elements)| + 1) else NoItems
    decreases elements
  {
    hide Occurs, Text, ElementsText, ParseValue, SkipWhitespace, Nesting, Valid, Value, Stands, Terminated;
    hide ElementsValid, Values, ItemsNesting, ElementEnd;
    ElementStands(elements, t, o);
    var e, m := elements[0], ElementEnd(elements, o);
    LayoutParses(e.value, t, o + |e.before|, depth);
    if |elements| == 1 {
      OneElement(elements);
    } else {
      ElementsParse(elements[1..], t, m + 1, m + 1, depth);
      ValuesStep(elements);
    }
  }

  lemma OneElement(elements: seq<Element>)
    requires |elements| == 1 && ElementsValid(elements)
    ensures Values(elements) == [Value(elements[0].value)]
    ensures ItemsNesting(Values(elements)) == Nesting(Value(elements[0].value))
  {
    hide Nesting, Value, Valid;
    NoElements();
    ValuesStep(elements);
    assert elements[1..] == [];
  }

  lemma ValuesStep(elements: seq<Element>)
    requires elements != [] && ElementsValid(elements)
    ensures Values(elements) == [Value(elements[0].value)] + Values(elements[1..])
    ensures ItemsNesting(Values(elements)) ==
            Max(Nesting(Value(elements[0].value)), ItemsNesting(Values(elements[1..])))
  {
    hide Nesting, Value;
  }

  // --- objects ---

  lemma ObjectParses(w: Layout, t: seq<byte>, offset: nat, depth: int)
    requires w.ObjectText? && depth <= NESTING_LIMIT
    requires Valid(w) && Stands(t, offset, Text(w))
    ensures Parses(t, offset, depth, Value(w), offset + |Text(w)|)
    decreases w, 0
  {
    hide Occurs, EntriesText, EntriesValid, MembersOf, ParseMembers, SkipWhitespace, ParseValue, MembersNesting;
    hide IsNumberChar;
    var entries, o := w.entries, offset + 1;
    var inside := if entries == [] then w.blank else EntriesText(entries);
    Brackets(t, offset, OPEN_OBJECT, inside, CLOSE_OBJECT);
    ContainerAt(t, offset, depth);
    if entries == [] {
      NoEntries();
      SkipTo(t, o, w.blank);
    } else {
      FirstEntry(entries, t, o);
      SkipTwice(t, o);
      if depth < NESTING_LIMIT {
        EntriesParse(entries, t, SkipWhitespace(t, o), o, depth + 1);
      }
    }
  }

  lemma NoEntries()
    ensures EntriesValid([]) && MembersOf([]) == [] && MembersNesting([]) == 0
  {
  }

  /** Where the parts of the first entry stand. */
  function NameAt(entries: seq<Entry>, o: nat): nat
    requires entries != []
  {
    o + |entries[0].before|
  }

  function ColonAt(entries: seq<Entry>, o: nat): nat
    requires entries != []
  {
    NameAt(entries, o) + |Quoted(entries[0].name)| + |entries[0].beforeColon|
  }

  function ValueAt(entries: seq<Entry>, o: nat): nat
    requires entries != []
  {
    ColonAt(entries, o) + 1 + |entries[0].afterColon|
  }

  function EntryEnd(entries: seq<Entry>, o: nat): nat
    requires entries != []
  {
    ValueAt(entries, o) + |Text(entries[0].value)| + |entries[0].after|
  }

  lemma EntryOccurs(entries: seq<Entry>, t: seq<byte>, o: nat)
    requires entries != [] && Occurs(t, o, EntriesText(entries))
    ensures var e, q, c, x := entries[0], NameAt(entries, o), ColonAt(entries, o), ValueAt(entries, o);
            && Occurs(t, o, e.before) && Occurs(t, q, Quoted(e.name))
            && Occurs(t, q + |Quoted(e.name)|, e.beforeColon) && Occurs(t, c, [COLON])
            && Occurs(t, c + 1, e.afterColon) && Occurs(t, x, Text(e.value))
            && Occurs(t, x + |Text(e.value)|, e.after) && Occurs(t, EntryEnd(entries, o), MoreEntries(entries))
            && o + |EntriesText(entries)| == EntryEnd(entries, o) + |MoreEntries(entries)|
  {
    hide Occurs, Text, Quoted, MoreEntries;
    var e, more := entries[0], MoreEntries(entries);
    var q, c, x := NameAt(entries, o), ColonAt(entries, o), ValueAt(entries, o);
    var fromValue := Text(e.value) + (e.after + more);
    var fromColon := [COLON] + (e.afterColon + fromValue);
    OccursSplit(t, o, e.before, Quoted(e.name) + (e.beforeColon + fromColon));
    OccursSplit(t, q, Quoted(e.name), e.beforeColon + fromColon);
    OccursSplit(t, q + |Quoted(e.name)|, e.beforeColon, fromColon);
    OccursSplit(t, c, [COLON], e.afterColon + fromValue);
    OccursSplit(t, c + 1, e.afterColon, fromValue);
    OccursSplit(t, x, Text(e.value), e.after + more);
    OccursSplit(t, x + |Text(e.value)|, e.after, more);
  }

  lemma QuotedStarts(t: seq<byte>, q: nat, pieces: seq<Piece>)
    requires Occurs(t, q, Quoted(pieces))
    ensures q < |t| && t[q] == QUOTE
  {
    hide TextOf, Occurs;
    OccursAt(t, q, Quoted(pieces), 0);
  }

  lemma FirstEntry(entries: seq<Entry>, t: seq<byte>, o: nat)
    requires entries != [] && EntriesValid(entries) && Occurs(t, o, EntriesText(entries))
    ensures o < |t| && SkipWhitespace(t, o) == NameAt(entries, o) && t[NameAt(entries, o)] == QUOTE
  {
    hide Occurs, SkipWhitespace, Valid, Text, EntriesText, Quoted, MoreEntries, IsString;
    EntryOccurs(entries, t, o);
    QuotedStarts(t, NameAt(entries, o), entries[0].name);
    SkipTo(t, o, entries[0].before);
  }

  lemma NameParses(entries: seq<Entry>, t: seq<byte>, offset: nat, o: nat)
    requires entries != [] && EntriesValid(entries) && Terminated(t) && Occurs(t, o, EntriesText(entries))
    requires offset < |t| && o < |t| && SkipWhitespace(t, offset) == SkipWhitespace(t, o)
    ensures IsString(entries[0].name) && Valid(entries[0].value) && ValueAt(entries, o) < |t|
    ensures ParseName(t, offset) == Some((Meaning(entries[0].name).value, ColonAt(entries, o) + 1))
    ensures SkipWhitespace(t, ColonAt(entries, o) + 1) == ValueAt(entries, o)
  {
    hide Occurs, SkipWhitespace, Text, EntriesText, Quoted, MoreEntries, Meaning, StringAtOffset;
    var e, q, c, x := entries[0], NameAt(entries, o), ColonAt(entries, o), ValueAt(entries, o);
    EntryOccurs(entries, t, o);
    FirstEntry(entries, t, o);
    QuotedParses(t, q, e.name);
    OccursAt(t, c, [COLON], 0);
    SkipTo(t, q + |Quoted(e.name)|, e.beforeColon);
    TextStarts(e.value);
    OccursAt(t, x, Text(e.value), 0);
    SkipTo(t, c + 1, e.afterColon);
  }

  lemma EntryValueStands(entries: seq<Entry>, t: seq<byte>, o: nat)
    requires entries != [] && EntriesValid(entries) && Terminated(t) && Occurs(t, o, EntriesText(entries))
    requires var end := o + |EntriesText(entries)|; end < |t| && t[end] == CLOSE_OBJECT
    ensures var e, x, m := entries[0], ValueAt(entries, o), EntryEnd(entries, o);
            && Valid(e.value) && EntriesValid(entries[1..])
            && Stands(t, x, Text(e.value)) && m < |t| && SkipWhitespace(t, x + |Text(e.value)|) == m
            && (|entries| == 1 ==> m == o + |EntriesText(entries)|)
            && (|entries| > 1 ==>
                  && t[m] == COMMA && m + 1 < |t| && Occurs(t, m + 1, EntriesText(entries[1..]))
                  && m + 1 + |EntriesText(entries[1..])| == o + |EntriesText(entries)|)
  {
    hide Occurs, SkipWhitespace, Valid, Text, Quoted, EntriesText, IsString, ValueAt;
    var e, x, m := entries[0], ValueAt(entries, o), EntryEnd(entries, o);
    EntryOccurs(entries, t, o);
    TextStarts(e.value);
    if |entries| > 1 {
      OccursAt(t, m, MoreEntries(entries), 0);
      OccursSplit(t, m, [COMMA], EntriesText(entries[1..]));
    }
    SkipTo(t, x + |Text(e.value)|, e.after);
  }

  lemma {:induction false} EntriesParse(entries: seq<Entry>, t: seq<byte>, offset: nat, o: nat, depth: int)
    requires entries != [] && EntriesValid(entries) && Terminated(t) && depth <= NESTING_LIMIT
    requires Occurs(t, o, EntriesText(entries))
    requires var end := o + |EntriesText(entries)|; end < |t| && t[end] == CLOSE_OBJECT
    requires offset < |t| && SkipWhitespace(t, offset) == SkipWhitespace(t, o)
    ensures ParseMembers(t, offset, depth) ==
            if depth + MembersNesting(MembersOf(entries)) <= NESTING_LIMIT
            then Members(MembersOf(entries), o + |EntriesText(entries)| + 1) else NoMembers
    decreases entries
  {
    hide Occurs, Text, EntriesText, ParseValue, ParseName, SkipWhitespace, Nesting, Valid, Value, Stands, Terminated;
    hide IsString, Meaning, ValueAt, ColonAt, EntryEnd, EntriesValid, MembersOf, MembersNesting;
    NameParses(entries, t, offset, o);
    EntryValueStands(entries, t, o);
    var e, m := entries[0], EntryEnd(entries, o);
    LayoutParses(e.value, t, ValueAt(entries, o), depth);
    if |entries| == 1 {
      OneEntry(entries);
    } else {
      EntriesParse(entries[1..], t, m + 1, m + 1, depth);
      MembersStep(entries);
    }
  }

  lemma OneEntry(entries: seq<Entry>)
    requires |entries| == 1 && EntriesValid(entries)
    ensures MembersOf(entries) == [Member(Meaning(entries[0].name).value, Value(entries[0].value))]
    ensures MembersNesting(MembersOf(entries)) == Nesting(Value(entries[0].value))
  {
    hide Nesting, Value, Valid, Meaning, IsString;
    NoEntries();
    MembersStep(entries);
    assert entries[1..] == [];
  }

  lemma MembersStep(entries: seq<Entry>)
    requires entries != [] && EntriesValid(entries)
    ensures MembersOf(entries) ==
            [Member(Meaning(entries[0].name).value, Value(entries[0].value))] + MembersOf(entries[1..])
    ensures MembersNesting(MembersOf(entries)) ==
            Max(Nesting(Value(entries[0].value)), MembersNesting(MembersOf(entries[1..])))
  {
    hide Nesting, Value, Meaning;
  }

  // --- whole texts ---

  predicate IsMark(mark: seq<byte>) { mark == [] || mark == [0xEF, 0xBB, 0xBF] }

  /** A byte order mark and blanks in front of a text do not matter, nor what stands behind it, as long as it
      does not continue a number. */
  lemma LayoutTextParses(mark: seq<byte>, before: seq<byte>, w: Layout, after: seq<byte>)
    requires IsMark(mark) && IsBlank(before) && Valid(w) && (after != [] ==> !IsNumberChar(after[0]))
    requires 0 !in mark + before + Text(w) + after
    ensures Parse(mark + before + Text(w) + after) ==
            if Nesting(Value(w)) <= 1000 then Done(Value(w), |mark| + |before| + |Text(w)|) else Fail
  {
    hide Text, Value, Valid, Stands, Parse, ParseValue, SkipWhitespace, Nesting, Occurs;
    var t := mark + before + Text(w) + after + [0];
    TextStarts(w);
    TextStandsIn(mark + before, Text(w), after);
    OccursSplit(t, 0, mark, before);
    SkipTo(t, |mark|, before);
    ParseStart(mark + before + Text(w) + after, mark);
    LayoutParses(w, t, |mark| + |before|, 0);
  }

  /** Parsing starts behind the mark, if there is one. */
  lemma ParseStart(text: seq<byte>, mark: seq<byte>)
    requires 0 !in text && IsMark(mark) && |mark| < |text|
    requires Occurs(text + [0], 0, mark) && (mark == [] ==> text[0] < 128)
    ensures var t := text + [0]; Parse(text) == ParseValue(t, SkipWhitespace(t, |mark|), 0)
  {
    hide ParseValue, SkipWhitespace, Occurs;
    var t := text + [0];
    assert CString(text) == text;
    if mark == [] && Occurs(t, 0, BYTE_ORDER_MARK) {
      OccursAt(t, 0, BYTE_ORDER_MARK, 0);
      assert false;
    }
  }

  lemma TextStandsIn(before: seq<byte>, s: seq<byte>, after: seq<byte>)
    requires s != [] && (after != [] ==> !IsNumberChar(after[0]))
    ensures var t := before + s + after + [0];
            && Stands(t, |before|, s) && Occurs(t, 0, before) && t[|before|] == s[0]
            && t[0] == if before == [] then s[0] else before[0]
  {
    var t := before + s + after + [0];
    assert t[..|before|] == before;
    assert t[|before|..|before| + |s|] == s;
    assert t[|before| + |s|] == if after == [] then 0 else after[0];
  }

  lemma MalformedUnit(pieces: seq<Piece>)
    requires |pieces| == 1 && pieces[0].Unit? && pieces[0].Valid() && !IsHex(pieces[0].hex[0])
    ensures AllValid(pieces) && Meaning(pieces) == Some([0]) && TextOf(pieces) == pieces[0].Text()
  {
    assert pieces[1..] == [] && Meaning(pieces[1..]) == Some([]) && TextOf(pieces[1..]) == [];
    assert pieces[0].Code() == 0 && Encode(0) == [0] && !IsHigh(0) && !IsLow(0);
    var zero: seq<byte> := [0];
    assert zero + [] == zero && Meaning(pieces) == Prepend(zero, Some([]));
    assert TextOf(pieces) == pieces[0].Text() + [];
  }

  /** RFC 8259 has no string "\uzzzz"; here it is the string of one zero byte. */
  lemma MalformedEscapeParses()
    ensures var z: byte := 0x7A;
            Parse([0x22, 0x5C, 0x75, z, z, z, z, 0x22]) == Done(String([0]), 8)
  {
    var hex: seq<byte> := [0x7A, 0x7A, 0x7A, 0x7A];
    var w := StringText([Unit(hex)]);
    MalformedLayout(hex);
    hide Parse, Valid, Text, Value;
    assert [] + [] + Text(w) + [] == Text(w);
    LayoutTextParses([], [], w, []);
  }

  lemma MalformedLayout(hex: seq<byte>)
    requires hex == [0x7A, 0x7A, 0x7A, 0x7A]
    ensures var w := StringText([Unit(hex)]);
            && Valid(w) && Value(w) == String([0])
            && Text(w) == [0x22, 0x5C, 0x75, hex[0], hex[1], hex[2], hex[3], 0x22]
  {
    hide Meaning, TextOf, Hex4;
    var pieces := [Unit(hex)];
    MalformedUnit(pieces);
    assert Quoted(pieces) == [0x22] + Unit(hex).Text() + [0x22];
    assert [0x22] + ([0x5C, 0x75] + hex) + [0x22] == [0x22, 0x5C, 0x75, hex[0], hex[1], hex[2], hex[3], 0x22];
  }
}
