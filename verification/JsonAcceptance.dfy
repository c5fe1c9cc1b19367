/** Which texts the parser accepts: layouts, and no others. Only an escape whose four bytes hold a quote or a
    backslash is read differently by the two passes over a string; the texts here have none. */
module JsonAcceptance {
  import opened Bytes
  import opened Options
  import opened Utf8
  import opened JsonStrings
  import opened JsonPieces
  import opened JsonNumbers
  import opened JsonText
  import opened JsonLayouts
  import opened JsonRoundTrip

  /** A backslash that no other one escapes. */
  predicate Starts(t: seq<byte>, p: nat)
    requires p < |t|
  {
    t[p] == BACKSLASH && (p == 0 || !Starts(t, p - 1))
  }

  predicate TidyAt(t: seq<byte>, p: nat)
    requires p < |t|
  {
    Starts(t, p) && p + 1 < |t| && t[p + 1] == LETTER_U ==>
      p + 6 <= |t| && forall k :: p + 2 <= k < p + 6 ==> t[k] != QUOTE && t[k] != BACKSLASH
  }

  /** Four bytes other than quotes and backslashes follow every \u that is an escape. */
  predicate Tidy(t: seq<byte>) { forall p :: 0 <= p < |t| ==> TidyAt(t, p) }

  /** The byte in front of p does not escape the one at p. */
  predicate Fresh(t: seq<byte>, p: nat)
    requires p <= |t|
  {
    p == 0 || !Starts(t, p - 1)
  }

  // --- strings ---

  lemma UnitIsScanned(t: seq<byte>, p: nat)
    requires Tidy(t) && p + 1 < |t| && t[p] == BACKSLASH && t[p + 1] == LETTER_U && Fresh(t, p)
    requires ScanString(t, p).Some?
    ensures p + 6 <= |t| && Fresh(t, p + 6) && TidyAt(t, p)
    ensures ScanString(t, p + 6).Some? && ScanString(t, p + 6).value.0 == ScanString(t, p).value.0
  {
    assert TidyAt(t, p);
    assert ScanString(t, p + 2) == ScanString(t, p + 3);
    assert ScanString(t, p + 3) == ScanString(t, p + 4);
    assert ScanString(t, p + 4) == ScanString(t, p + 5);
    assert ScanString(t, p + 5) == ScanString(t, p + 6);
  }

  lemma Pushed(piece: Piece, rest: seq<Piece>)
    requires piece.Valid() && AllValid(rest)
    ensures AllValid([piece] + rest) && TextOf([piece] + rest) == piece.Text() + TextOf(rest)
    ensures ([piece] + rest)[1..] == rest
  {
  }

  ghost predicate Reads(t: seq<byte>, p: nat, end: nat, pieces: seq<Piece>)
    requires p <= end < |t|
  {
    AllValid(pieces) && TextOf(pieces) == t[p..end] && Meaning(pieces) == Decode(t, p, end)
  }

  lemma {:induction false} LiteralIsPieces(t: seq<byte>, p: nat, end: nat) returns (pieces: seq<Piece>)
    requires Tidy(t) && p <= end < |t| && ScanString(t, p).Some? && ScanString(t, p).value.0 == end
    requires Decode(t, p, end).Some? && Fresh(t, p)
    ensures Reads(t, p, end, pieces)
    decreases |t| - p, 1
  {
    hide Decode, Meaning, TextOf, AllValid, Starts, Tidy, Encode, Hex4, Fresh;
    if p == end {
      pieces := [];
      NothingReads(t, p);
    } else if t[p] != BACKSLASH {
      DecodePlain(t, p, end);
      FreshBehind(t, p);
      var rest := LiteralIsPieces(t, p + 1, end);
      pieces := [Plain(t[p])] + rest;
      ByteMeans(Plain(t[p]), t[p], rest);
      assert t[p..end] == [t[p]] + t[p + 1..end];
    } else if t[p + 1] == LETTER_U {
      UnitIsScanned(t, p);
      UnitFits(t, p, end);
      pieces := UnitsFirst(t, p, end);
    } else {
      ShortFits(t, p, end);
      DecodeShort(t, p, end);
      FreshBehind(t, p);
      var rest := LiteralIsPieces(t, p + 2, end);
      pieces := [Short(t[p + 1])] + rest;
      ByteMeans(Short(t[p + 1]), ShortEscape(t[p + 1]), rest);
      assert t[p..end] == [BACKSLASH, t[p + 1]] + t[p + 2..end];
    }
  }

  lemma NothingReads(t: seq<byte>, p: nat)
    requires p < |t|
    ensures Reads(t, p, p, [])
  {
  }

  lemma FreshBehind(t: seq<byte>, p: nat)
    requires p < |t| && Fresh(t, p)
    ensures if t[p] != BACKSLASH then Fresh(t, p + 1) else p + 1 < |t| ==> Fresh(t, p + 2)
  {
  }

  lemma UnitFits(t: seq<byte>, p: nat, end: nat)
    requires p < end < |t| && t[p] == BACKSLASH && t[p + 1] == LETTER_U && Decode(t, p, end).Some?
    ensures p + 6 <= end
  {
    hide Encode, Hex4;
  }

  lemma ShortFits(t: seq<byte>, p: nat, end: nat)
    requires p < end < |t| && t[p] == BACKSLASH && t[p + 1] != LETTER_U && Decode(t, p, end).Some?
    requires ScanString(t, p).Some? && ScanString(t, p).value.0 == end
    ensures p + 2 <= end && ShortEscape(t[p + 1]) != 0
  {
  }

  /** One piece that stands for one byte. */
  lemma ByteMeans(piece: Piece, b: byte, rest: seq<Piece>)
    requires piece.Valid() && AllValid(rest)
    requires piece == Plain(b) || (piece.Short? && b == ShortEscape(piece.e))
    ensures AllValid([piece] + rest) && Meaning([piece] + rest) == Prepend([b], Meaning(rest))
    ensures TextOf([piece] + rest) == piece.Text() + TextOf(rest)
  {
    hide ShortEscape;
    Pushed(piece, rest);
  }

  /** One unit, or the two of a surrogate pair. */
  lemma {:induction false} UnitsFirst(t: seq<byte>, p: nat, end: nat) returns (pieces: seq<Piece>)
    requires Tidy(t) && p + 6 <= end < |t| && t[p] == BACKSLASH && t[p + 1] == LETTER_U && TidyAt(t, p)
    requires Fresh(t, p) && Fresh(t, p + 6)
    requires ScanString(t, p + 6).Some? && ScanString(t, p + 6).value.0 == end
    requires Decode(t, p, end).Some?
    ensures Reads(t, p, end, pieces)
    decreases |t| - p, 0
  {
    hide Encode, Hex4, ScanString, Starts, Tidy, Decode, Meaning, TextOf, AllValid, Piece.Valid, TidyAt, Fresh, Reads;
    var unit := UnitOf(t, p);
    UnitDecodes(t, p, end);
    if Literal(t, p, end).0 == 6 {
      var rest := LiteralIsPieces(t, p + 6, end);
      pieces := [unit] + rest;
      UnitReads(t, p, end, unit, rest);
    } else {
      UnitIsScanned(t, p + 6);
      var low := UnitOf(t, p + 6);
      var rest := LiteralIsPieces(t, p + 12, end);
      pieces := [unit] + ([low] + rest);
      PairReads(t, p, end, unit, low, rest);
    }
  }

  lemma UnitReads(t: seq<byte>, p: nat, end: nat, unit: Piece, rest: seq<Piece>)
    requires p + 6 <= end < |t| && t[p] == BACKSLASH && t[p + 1] == LETTER_U && Decode(t, p, end).Some?
    requires unit.Valid() && unit.Unit? && unit.Text() == t[p..p + 6] && unit.hex == t[p + 2..p + 6]
    requires Literal(t, p, end).0 == 6 && Reads(t, p + 6, end, rest)
    ensures Reads(t, p, end, [unit] + rest)
  {
    hide Encode, Hex4, Decode, Meaning, TextOf, AllValid, Piece.Valid;
    UnitDecodes(t, p, end);
    Pushed(unit, rest);
    UnitMeans(unit, rest);
    assert t[p..end] == t[p..p + 6] + t[p + 6..end];
  }

  lemma PairReads(t: seq<byte>, p: nat, end: nat, unit: Piece, low: Piece, rest: seq<Piece>)
    requires p + 12 <= end < |t| && t[p] == BACKSLASH && t[p + 1] == LETTER_U && Decode(t, p, end).Some?
    requires unit.Valid() && unit.Unit? && unit.Text() == t[p..p + 6] && unit.hex == t[p + 2..p + 6]
    requires low.Valid() && low.Unit? && low.Text() == t[p + 6..p + 12] && low.hex == t[p + 8..p + 12]
    requires Literal(t, p, end).0 == 12 && Reads(t, p + 12, end, rest)
    ensures Reads(t, p, end, [unit] + ([low] + rest))
  {
    hide Encode, Hex4, Decode, Meaning, TextOf, AllValid, Piece.Valid;
    UnitDecodes(t, p, end);
    Pushed(low, rest);
    Pushed(unit, [low] + rest);
    PairMeans(unit, low, rest);
    assert t[p..end] == t[p..p + 6] + (t[p + 6..p + 12] + t[p + 12..end]);
  }

  lemma UnitDecodes(t: seq<byte>, p: nat, end: nat)
    requires p + 6 <= end < |t| && t[p] == BACKSLASH && t[p + 1] == LETTER_U && Decode(t, p, end).Some?
    ensures var (n, bytes) := Literal(t, p, end);
            n > 0 && Decode(t, p + n, end).Some? && Decode(t, p, end) == Prepend(bytes, Decode(t, p + n, end))
  {
    hide Literal;
  }

  lemma UnitMeans(unit: Piece, rest: seq<Piece>)
    requires unit.Valid() && unit.Unit? && AllValid(rest) && !IsLow(unit.Code()) && !IsHigh(unit.Code())
    ensures AllValid([unit] + rest) && Meaning([unit] + rest) == Prepend(Encode(unit.Code()), Meaning(rest))
  {
    hide Encode, Hex4;
    Pushed(unit, rest);
  }

  lemma PairMeans(unit: Piece, low: Piece, rest: seq<Piece>)
    requires unit.Valid() && unit.Unit? && low.Valid() && low.Unit? && AllValid(rest)
    requires IsHigh(unit.Code()) && IsLow(low.Code())
    ensures AllValid([unit] + ([low] + rest))
    ensures Meaning([unit] + ([low] + rest)) == Prepend(Encode(Combine(unit.Code(), low.Code())), Meaning(rest))
  {
    hide Encode, Hex4;
    Pushed(low, rest);
    Pushed(unit, [low] + rest);
    assert ([unit] + ([low] + rest))[2..] == rest;
  }

  lemma UnitOf(t: seq<byte>, p: nat) returns (unit: Piece)
    requires p + 1 < |t| && t[p] == BACKSLASH && t[p + 1] == LETTER_U && TidyAt(t, p) && Fresh(t, p)
    ensures unit.Valid() && unit.Unit? && p + 6 <= |t| && unit.Text() == t[p..p + 6]
    ensures unit.hex == t[p + 2..p + 6]
  {
    unit := Unit(t[p + 2..p + 6]);
    assert t[p..p + 6] == [t[p], t[p + 1]] + t[p + 2..p + 6];
  }

  lemma StringIsQuoted(t: seq<byte>, offset: nat) returns (pieces: seq<Piece>)
    requires Tidy(t) && offset < |t| && StringAtOffset(t, offset).Some?
    ensures IsString(pieces) && Occurs(t, offset, Quoted(pieces))
    ensures StringAtOffset(t, offset) == Some((Meaning(pieces).value, offset + |Quoted(pieces)|))
  {
    hide Decode, ScanString, Meaning, TextOf, AllValid;
    var end := ScanString(t, offset + 1).value.0;
    pieces := LiteralIsPieces(t, offset + 1, end);
    assert t[offset..end + 1] == [QUOTE] + t[offset + 1..end] + [QUOTE];
  }

  // --- numbers ---

  lemma NumberIsText(t: seq<byte>, offset: nat)
    requires offset < |t| && NumberAt(t, offset).1 > 0 && (t[offset] == MINUS || IsDigit(t[offset]))
    ensures var (value, n) := NumberAt(t, offset);
            var s := t[offset..offset + n];
            IsNumber(s) && Strtod(s) == (value, n) && Occurs(t, offset, s)
  {
    hide Strtod;
    var c := t[offset..NumberEnd(t, offset, 63)];
    var n := Strtod(c).1;
    StrtodOfPrefix(c);
    assert c[..n] == t[offset..offset + n];
    assert forall k :: 0 <= k < n ==> c[k] == t[offset + k];
  }

  // --- blanks ---

  lemma {:induction false} SkippedIsBlank(t: seq<byte>, offset: nat)
    requires offset < |t|
    ensures IsBlank(t[offset..SkipWhitespace(t, offset)])
    decreases |t| - offset
  {
    var end := SkipWhitespace(t, offset);
    if offset < end {
      SkippedIsBlank(t, offset + 1);
      assert t[offset..end] == [t[offset]] + t[offset + 1..end];
    }
  }

  lemma OccursHere(t: seq<byte>, from: nat, to: nat)
    requires from <= to <= |t|
    ensures Occurs(t, from, t[from..to])
  {
  }

  lemma OccursJoin(t: seq<byte>, at: nat, a: seq<byte>, b: seq<byte>)
    requires Occurs(t, at, a) && Occurs(t, at + |a|, b)
    ensures Occurs(t, at, a + b)
  {
    assert t[at..at + |a| + |b|] == t[at..at + |a|] + t[at + |a|..at + |a| + |b|];
  }

  // --- values ---

  /** The text of a layout of the value stands between the two offsets. */
  ghost predicate LaidOut(t: seq<byte>, offset: nat, w: Layout, v: Json, next: nat) {
    Valid(w) && Value(w) == v && Occurs(t, offset, Text(w)) && next == offset + |Text(w)|
  }

  lemma {:induction false} ValueIsLayout(t: seq<byte>, offset: nat, depth: int) returns (w: Layout)
    requires Terminated(t) && Tidy(t) && offset < |t| && ParseValue(t, offset, depth).Done?
    ensures var r := ParseValue(t, offset, depth); LaidOut(t, offset, w, r.value, r.next)
    decreases |t| - offset, 2
  {
    hide ParseArray, ParseObject, Tidy, Terminated, StringAtOffset, NumberAt, Occurs, Strtod, IsString, IsNumber;
    if Occurs(t, offset, NULL_TEXT) {
      w := NullText;
    } else if Occurs(t, offset, FALSE_TEXT) {
      w := FalseText;
    } else if Occurs(t, offset, TRUE_TEXT) {
      w := TrueText;
    } else if t[offset] == QUOTE {
      var pieces := StringIsQuoted(t, offset);
      w := StringText(pieces);
    } else if t[offset] == MINUS || IsDigit(t[offset]) {
      NumberIsText(t, offset);
      w := NumberText(t[offset..offset + NumberAt(t, offset).1]);
    } else if t[offset] == OPEN_ARRAY {
      w := ArrayIsLayout(t, offset, depth);
    } else {
      w := ObjectIsLayout(t, offset, depth);
    }
  }

  lemma Enclosed(t: seq<byte>, offset: nat, open: byte, inside: seq<byte>, close: byte)
    requires offset < |t| && t[offset] == open && Occurs(t, offset + 1, inside)
    requires offset + 1 + |inside| < |t| && t[offset + 1 + |inside|] == close
    ensures Occurs(t, offset, [open] + (inside + [close]))
  {
    OccursJoin(t, offset + 1, inside, [close]);
    OccursJoin(t, offset, [open], inside + [close]);
  }

  lemma ArrayIsLayout(t: seq<byte>, offset: nat, depth: int) returns (w: Layout)
    requires Terminated(t) && Tidy(t) && offset < |t| && t[offset] == OPEN_ARRAY && ParseArray(t, offset, depth).Done?
    ensures var r := ParseArray(t, offset, depth); LaidOut(t, offset, w, r.value, r.next)
    decreases |t| - offset, 1
  {
    hide ParseItems, Tidy, Terminated, SkipWhitespace, Occurs, ElementsText, ElementsValid, Values, IsBlank;
    var first := SkipWhitespace(t, offset + 1);
    if t[first] == CLOSE_ARRAY {
      var blank := t[offset + 1..first];
      SkippedIsBlank(t, offset + 1);
      OccursHere(t, offset + 1, first);
      Enclosed(t, offset, OPEN_ARRAY, blank, CLOSE_ARRAY);
      NoElements();
      w := ArrayText(blank, []);
    } else {
      SkipTwice(t, offset + 1);
      var elements := ItemsAreElements(t, first, offset + 1, depth + 1);
      Enclosed(t, offset, OPEN_ARRAY, ElementsText(elements), CLOSE_ARRAY);
      NothingIsBlank();
      w := ArrayText([], elements);
    }
  }

  lemma NothingIsBlank()
    ensures IsBlank([])
  {
  }

  lemma {:induction false} ItemsAreElements(t: seq<byte>, offset: nat, o: nat, depth: int)
    returns (elements: seq<Element>)
    requires Terminated(t) && Tidy(t) && offset < |t| && o < |t| && SkipWhitespace(t, offset) == SkipWhitespace(t, o)
    requires ParseItems(t, offset, depth).Items?
    ensures var r := ParseItems(t, offset, depth);
            && elements != [] && ElementsValid(elements) && Values(elements) == r.items
            && Occurs(t, o, ElementsText(elements)) && o + |ElementsText(elements)| + 1 == r.next
            && t[r.next - 1] == CLOSE_ARRAY
    decreases |t| - offset, 3
  {
    hide ParseValue, Tidy, Terminated, SkipWhitespace, Occurs, ElementsText, ElementsValid, Values, IsBlank;
    hide LaidOut, Text;
    var x := SkipWhitespace(t, o);
    var r := ParseValue(t, x, depth);
    var w := ValueIsLayout(t, x, depth);
    var e := ElementLaid(t, o, w, r.value, r.next);
    var after := SkipWhitespace(t, r.next);
    if t[after] == COMMA {
      var rest := ItemsAreElements(t, after + 1, after + 1, depth);
      Behind(t, after, COMMA, ElementsText(rest));
      elements := ElementJoins(t, o, e, rest, [COMMA] + ElementsText(rest));
    } else {
      NoElements();
      NothingOccurs(t, after);
      elements := ElementJoins(t, o, e, [], []);
    }
  }

  lemma NothingOccurs(t: seq<byte>, at: nat)
    requires at <= |t|
    ensures Occurs(t, at, [])
  {
  }

  lemma Behind(t: seq<byte>, at: nat, b: byte, s: seq<byte>)
    requires at < |t| && t[at] == b && Occurs(t, at + 1, s)
    ensures Occurs(t, at, [b] + s)
  {
    OccursJoin(t, at, [b], s);
  }

  /** The blanks around a value make it an element. */
  lemma ElementLaid(t: seq<byte>, o: nat, w: Layout, v: Json, next: nat) returns (e: Element)
    requires o < |t| && next < |t| && LaidOut(t, SkipWhitespace(t, o), w, v, next)
    ensures e.value == w && Valid(w) && Value(w) == v && IsBlank(e.before) && IsBlank(e.after)
    ensures var x := o + |e.before|;
            var n := x + |Text(w)|;
            && Occurs(t, o, e.before) && Occurs(t, x, Text(w)) && Occurs(t, n, e.after)
            && n + |e.after| == SkipWhitespace(t, next)
  {
    hide SkipWhitespace, Occurs, IsBlank, Valid, Value, Text;
    e := Element(t[o..SkipWhitespace(t, o)], w, t[next..SkipWhitespace(t, next)]);
    SkippedIsBlank(t, o);
    SkippedIsBlank(t, next);
    OccursHere(t, o, SkipWhitespace(t, o));
    OccursHere(t, next, SkipWhitespace(t, next));
  }

  lemma ElementJoins(t: seq<byte>, o: nat, e: Element, rest: seq<Element>, more: seq<byte>)
    returns (elements: seq<Element>)
    requires IsBlank(e.before) && Valid(e.value) && IsBlank(e.after) && ElementsValid(rest)
    requires more == if rest == [] then [] else [COMMA] + ElementsText(rest)
    requires Occurs(t, o, e.before) && Occurs(t, o + |e.before|, Text(e.value))
    requires Occurs(t, o + |e.before| + |Text(e.value)|, e.after)
    requires Occurs(t, o + |e.before| + |Text(e.value)| + |e.after|, more)
    ensures elements == [e] + rest && ElementsValid(elements) && Values(elements) == [Value(e.value)] + Values(rest)
    ensures Occurs(t, o, ElementsText(elements))
    ensures |ElementsText(elements)| == |e.before| + |Text(e.value)| + |e.after| + |more|
  {
    hide Text, Occurs, ElementsText, ElementsValid, Values, IsBlank, Valid, Value;
    JoinThree(t, o + |e.before|, Text(e.value), e.after, more);
    OccursJoin(t, o, e.before, Text(e.value) + (e.after + more));
    ElementsCons(e, rest);
    elements := [e] + rest;
  }

  lemma ObjectIsLayout(t: seq<byte>, offset: nat, depth: int) returns (w: Layout)
    requires Terminated(t) && Tidy(t) && offset < |t| && t[offset] == OPEN_OBJECT
    requires ParseObject(t, offset, depth).Done?
    ensures var r := ParseObject(t, offset, depth); LaidOut(t, offset, w, r.value, r.next)
    decreases |t| - offset, 1
  {
    hide ParseMembers, Tidy, Terminated, SkipWhitespace, Occurs, EntriesText, EntriesValid, MembersOf, IsBlank;
    var first := SkipWhitespace(t, offset + 1);
    if t[first] == CLOSE_OBJECT {
      var blank := t[offset + 1..first];
      SkippedIsBlank(t, offset + 1);
      OccursHere(t, offset + 1, first);
      Enclosed(t, offset, OPEN_OBJECT, blank, CLOSE_OBJECT);
      NoEntries();
      w := ObjectText(blank, []);
    } else {
      SkipTwice(t, offset + 1);
      var entries := MembersAreEntries(t, first, offset + 1, depth + 1);
      Enclosed(t, offset, OPEN_OBJECT, EntriesText(entries), CLOSE_OBJECT);
      NothingIsBlank();
      w := ObjectText([], entries);
    }
  }

  lemma {:induction false} MembersAreEntries(t: seq<byte>, offset: nat, o: nat, depth: int)
    returns (entries: seq<Entry>)
    requires Terminated(t) && Tidy(t) && offset < |t| && o < |t| && SkipWhitespace(t, offset) == SkipWhitespace(t, o)
    requires ParseMembers(t, offset, depth).Members?
    ensures var r := ParseMembers(t, offset, depth);
            && entries != [] && EntriesValid(entries) && MembersOf(entries) == r.members
            && Occurs(t, o, EntriesText(entries)) && o + |EntriesText(entries)| + 1 == r.next
            && t[r.next - 1] == CLOSE_OBJECT
    decreases |t| - offset, 3
  {
    hide ParseValue, Tidy, Terminated, SkipWhitespace, Occurs, EntriesText, EntriesValid, MembersOf, IsBlank;
    hide LaidOut, Text, ParseName, IsString, Meaning;
    var name := ParseName(t, offset).value;
    var start := NameLaid(t, offset, o);
    var x := SkipWhitespace(t, name.1);
    var r := ParseValue(t, x, depth);
    var w := ValueIsLayout(t, x, depth);
    var e := EntryLaid(t, o, start, name.0, name.1, w, r.value, r.next);
    var after := SkipWhitespace(t, r.next);
    if t[after] == COMMA {
      var rest := MembersAreEntries(t, after + 1, after + 1, depth);
      Behind(t, after, COMMA, EntriesText(rest));
      entries := EntryJoins(t, o, e, rest, [COMMA] + EntriesText(rest));
    } else {
      NoEntries();
      NothingOccurs(t, after);
      entries := EntryJoins(t, o, e, [], []);
    }
  }

  /** What stands in front of a member's value, up to its colon. */
  datatype Start = Start(before: seq<byte>, name: seq<Piece>, beforeColon: seq<byte>)

  ghost predicate StartAt(t: seq<byte>, o: nat, start: Start, key: seq<byte>, next: nat) {
    && IsBlank(start.before) && IsString(start.name) && IsBlank(start.beforeColon)
    && Meaning(start.name).value == key
    && var q := o + |start.before|;
       var c := q + |Quoted(start.name)|;
       && Occurs(t, o, start.before) && Occurs(t, q, Quoted(start.name)) && Occurs(t, c, start.beforeColon)
       && Occurs(t, c + |start.beforeColon|, [COLON]) && c + |start.beforeColon| + 1 == next
  }

  lemma NameLaid(t: seq<byte>, offset: nat, o: nat) returns (start: Start)
    requires Terminated(t) && Tidy(t) && offset < |t| && o < |t| && SkipWhitespace(t, offset) == SkipWhitespace(t, o)
    requires ParseName(t, offset).Some?
    ensures var name := ParseName(t, offset).value; StartAt(t, o, start, name.0, name.1)
  {
    hide SkipWhitespace, StringAtOffset, Quoted, Occurs, IsBlank, IsString, Meaning, Tidy, Terminated;
    var q := SkipWhitespace(t, o);
    var pieces := StringIsQuoted(t, q);
    var n := StringAtOffset(t, q).value.1;
    var c := SkipWhitespace(t, n);
    SkippedIsBlank(t, o);
    SkippedIsBlank(t, n);
    OccursHere(t, o, q);
    OccursHere(t, n, c);
    NothingOccurs(t, c + 1);
    Behind(t, c, COLON, []);
    assert [COLON] + [] == [COLON];
    start := Start(t[o..q], pieces, t[n..c]);
  }

  ghost predicate EntryAt(t: seq<byte>, o: nat, e: Entry, after: nat) {
    && IsBlank(e.before) && IsString(e.name) && IsBlank(e.beforeColon) && IsBlank(e.afterColon)
    && Valid(e.value) && IsBlank(e.after)
    && var q := o + |e.before|;
       var b := q + |Quoted(e.name)|;
       var c := b + |e.beforeColon|;
       var x := c + 1 + |e.afterColon|;
       var n := x + |Text(e.value)|;
       && Occurs(t, o, e.before) && Occurs(t, q, Quoted(e.name)) && Occurs(t, b, e.beforeColon)
       && Occurs(t, c, [COLON]) && Occurs(t, c + 1, e.afterColon) && Occurs(t, x, Text(e.value))
       && Occurs(t, n, e.after) && n + |e.after| == after
  }

  lemma EntryLaid(t: seq<byte>, o: nat, start: Start, key: seq<byte>, colonEnd: nat, w: Layout, v: Json, next: nat)
    returns (e: Entry)
    requires colonEnd < |t| && next < |t| && StartAt(t, o, start, key, colonEnd)
    requires LaidOut(t, SkipWhitespace(t, colonEnd), w, v, next)
    ensures EntryAt(t, o, e, SkipWhitespace(t, next))
    ensures Meaning(e.name).value == key && Value(e.value) == v
  {
    hide SkipWhitespace, Occurs, IsBlank, IsString, Quoted, Meaning, Text, Valid, Value;
    var around := ElementLaid(t, colonEnd, w, v, next);
    e := Entry(start.before, start.name, start.beforeColon, around.before, w, around.after);
  }

  lemma EntryJoins(t: seq<byte>, o: nat, e: Entry, rest: seq<Entry>, more: seq<byte>) returns (entries: seq<Entry>)
    requires EntryAt(t, o, e, o + EntryLength(e)) && EntriesValid(rest)
    requires more == if rest == [] then [] else [COMMA] + EntriesText(rest)
    requires Occurs(t, o + EntryLength(e), more)
    ensures entries == [e] + rest && EntriesValid(entries)
    ensures MembersOf(entries) == [Member(Meaning(e.name).value, Value(e.value))] + MembersOf(rest)
    ensures Occurs(t, o, EntriesText(entries)) && |EntriesText(entries)| == EntryLength(e) + |more|
  {
    hide Text, Occurs, EntriesText, EntriesValid, MembersOf, IsBlank, IsString, Quoted, Meaning, Valid, Value;
    EntryIsWhole(t, o, e, more);
    EntriesCons(e, rest);
    entries := [e] + rest;
  }

  lemma EntryIsWhole(t: seq<byte>, o: nat, e: Entry, more: seq<byte>)
    requires EntryAt(t, o, e, o + EntryLength(e)) && Occurs(t, o + EntryLength(e), more)
    ensures Occurs(t, o, e.before + (Quoted(e.name) + (e.beforeColon + ([COLON] + (e.afterColon +
                         (Text(e.value) + (e.after + more)))))))
  {
    hide Text, Occurs, IsBlank, IsString, Quoted, Valid;
    var c := o + |e.before| + |Quoted(e.name)| + |e.beforeColon|;
    var value := Text(e.value) + (e.after + more);
    JoinThree(t, c + 1 + |e.afterColon|, Text(e.value), e.after, more);
    JoinThree(t, c, [COLON], e.afterColon, value);
    OccursJoin(t, o + |e.before| + |Quoted(e.name)|, e.beforeColon, [COLON] + (e.afterColon + value));
    JoinThree(t, o, e.before, Quoted(e.name), e.beforeColon + ([COLON] + (e.afterColon + value)));
  }

  lemma JoinThree(t: seq<byte>, o: nat, a: seq<byte>, b: seq<byte>, c: seq<byte>)
    requires Occurs(t, o, a) && Occurs(t, o + |a|, b) && Occurs(t, o + |a| + |b|, c)
    ensures Occurs(t, o, a + (b + c))
  {
    hide Occurs;
    OccursJoin(t, o + |a|, b, c);
    OccursJoin(t, o, a, b + c);
  }

  function EntryLength(e: Entry): nat {
    |e.before| + |Quoted(e.name)| + |e.beforeColon| + 1 + |e.afterColon| + |Text(e.value)| + |e.after|
  }

  // --- whole texts ---

  /** The text is blanks, behind a byte order mark or not, and a layout of the value. */
  ghost predicate IsTextOf(text: seq<byte>, mark: seq<byte>, before: seq<byte>, w: Layout, v: Json) {
    IsMark(mark) && IsBlank(before) && Valid(w) && Value(w) == v && text == mark + before + Text(w)
  }

  ghost predicate HasLayout(text: seq<byte>, v: Json) {
    exists mark, before, w :: IsTextOf(text, mark, before, w, v)
  }

  /** What was consumed of a text is one. */
  lemma AcceptedHasLayout(text: seq<byte>)
    requires 0 !in text && Tidy(text) && Parse(text).Done?
    ensures var r := Parse(text);
            && Nesting(r.value) <= NESTING_LIMIT && r.next <= |text| && HasLayout(text[..r.next], r.value)
  {
    hide ParseValue, SkipWhitespace, Nesting, Occurs, Valid, Value, Text;
    ParsedIsShallow(text);
    var t := text + [0];
    assert CString(text) == text;
    var start := if 4 < |t| && Occurs(t, 0, BYTE_ORDER_MARK) then 3 else 0;
    var o := SkipWhitespace(t, start);
    TidyWithNul(text);
    var w := ValueIsLayout(t, o, 0);
    var mark, before := t[..start], t[start..o];
    SkippedIsBlank(t, start);
    var next := Parse(text).next;
    LaidOutText(t, o, w, next);
    assert text[..next] == t[..next];
    assert t[..next] == t[..start] + t[start..o] + t[o..next];
    MarkAt(t, start);
    assert IsTextOf(text[..next], mark, before, w, Parse(text).value);
  }

  lemma LaidOutText(t: seq<byte>, o: nat, w: Layout, next: nat)
    requires Occurs(t, o, Text(w)) && next == o + |Text(w)|
    ensures next <= |t| && t[o..next] == Text(w)
  {
  }

  lemma MarkAt(t: seq<byte>, start: nat)
    requires start == 0 || (start == 3 && Occurs(t, 0, BYTE_ORDER_MARK))
    ensures start <= |t| && IsMark(t[..start])
  {
  }

  lemma TidyWithNul(text: seq<byte>)
    requires Tidy(text)
    ensures Tidy(text + [0])
  {
    var t := text + [0];
    forall p | 0 <= p < |t| ensures TidyAt(t, p) {
      if p < |text| {
        assert TidyAt(text, p);
        StartsInFront(text, [0], p);
      }
    }
  }

  /** A text that is consumed to its end has a layout if and only if it is tidy. */
  lemma AcceptedTextIsLayoutIffTidy(text: seq<byte>)
    requires 0 !in text && Parse(text).Done? && Parse(text).next == |text|
    ensures Tidy(text) <==> HasLayout(text, Parse(text).value)
  {
    hide Parse, Tidy, Valid, Value, Text;
    var v := Parse(text).value;
    if Tidy(text) {
      AcceptedHasLayout(text);
      assert text[..|text|] == text;
    }
    if HasLayout(text, v) {
      LayoutIsTidy(text, v);
    }
  }

  /** Tidy texts are consumed to their end and give a value, if and only if they are layouts of the value and
      nested within the limit. */
  lemma WholeTextIsLayout(text: seq<byte>, v: Json)
    requires 0 !in text
    ensures Parse(text) == Done(v, |text|) && Tidy(text) <==> HasLayout(text, v) && Nesting(v) <= 1000
  {
    hide Parse, Nesting, Tidy, Valid, Value, Text;
    if Parse(text) == Done(v, |text|) && Tidy(text) {
      AcceptedHasLayout(text);
      assert text[..|text|] == text;
    }
    if HasLayout(text, v) {
      var mark, before, w :| IsTextOf(text, mark, before, w, v);
      assert mark + before + Text(w) + [] == text;
      LayoutTextParses(mark, before, w, []);
      LayoutIsTidy(text, v);
    }
  }

  // --- layouts are tidy ---

  /** Tidy, and the last byte escapes nothing. */
  predicate Neat(t: seq<byte>) { Tidy(t) && Fresh(t, |t|) }

  lemma {:induction false} StartsInFront(a: seq<byte>, b: seq<byte>, p: nat)
    requires p < |a|
    ensures Starts(a + b, p) == Starts(a, p)
    decreases p
  {
    if p > 0 {
      StartsInFront(a, b, p - 1);
    }
  }

  lemma {:induction false} StartsBehind(a: seq<byte>, b: seq<byte>, k: nat)
    requires k < |b| && Fresh(a, |a|)
    ensures Starts(a + b, |a| + k) == Starts(b, k)
    decreases k
  {
    if k > 0 {
      StartsBehind(a, b, k - 1);
    } else if a != [] {
      StartsInFront(a, b, |a| - 1);
    }
  }

  lemma NeatJoin(a: seq<byte>, b: seq<byte>)
    requires Neat(a) && Neat(b)
    ensures Neat(a + b)
  {
    var t := a + b;
    hide Starts;
    forall p | 0 <= p < |t| ensures TidyAt(t, p) {
      if p < |a| {
        assert TidyAt(a, p);
        StartsInFront(a, b, p);
      } else {
        assert TidyAt(b, p - |a|);
        StartsBehind(a, b, p - |a|);
      }
    }
    if b != [] {
      StartsBehind(a, b, |b| - 1);
    } else {
      assert t == a;
    }
  }

  lemma NoBackslashIsNeat(s: seq<byte>)
    requires BACKSLASH !in s
    ensures Neat(s)
  {
  }

  lemma PieceIsNeat(piece: Piece)
    requires piece.Valid()
    ensures Neat(piece.Text())
  {
    var s := piece.Text();
    match piece {
      case Plain(b) => NoBackslashIsNeat(s);
      case Short(e) =>
        assert Starts(s, 0) && !Starts(s, 1);
      case Unit(hex) =>
        NoBackslashIsNeat([LETTER_U] + hex);
        assert Starts(s, 0) && !Starts(s, 1);
        assert forall k :: 2 <= k < 6 ==> s[k] == hex[k - 2];
    }
  }

  lemma {:induction false} PiecesAreNeat(pieces: seq<Piece>)
    requires AllValid(pieces)
    ensures Neat(TextOf(pieces))
  {
    hide Neat, Piece.Text, Piece.Valid;
    if pieces == [] {
      NoBackslashIsNeat([]);
    } else {
      PieceIsNeat(pieces[0]);
      PiecesAreNeat(pieces[1..]);
      NeatJoin(pieces[0].Text(), TextOf(pieces[1..]));
    }
  }

  lemma QuotedIsNeat(pieces: seq<Piece>)
    requires AllValid(pieces)
    ensures Neat(Quoted(pieces))
  {
    hide Neat, TextOf, AllValid;
    NoBackslashIsNeat([QUOTE]);
    PiecesAreNeat(pieces);
    NeatJoin([QUOTE], TextOf(pieces));
    NeatJoin([QUOTE] + TextOf(pieces), [QUOTE]);
  }

  lemma {:induction false} TextIsNeat(w: Layout)
    requires Valid(w)
    ensures Neat(Text(w))
    decreases w
  {
    hide Neat, TextOf, AllValid, Meaning, Strtod, Quoted;
    match w {
      case StringText(pieces) => QuotedIsNeat(pieces);
      case ArrayText(blank, elements) =>
        if elements == [] {
          NoBackslashIsNeat(blank);
          BracketsAreNeat(OPEN_ARRAY, blank, CLOSE_ARRAY);
        } else {
          ElementsAreNeat(elements);
          BracketsAreNeat(OPEN_ARRAY, ElementsText(elements), CLOSE_ARRAY);
        }
      case ObjectText(blank, entries) =>
        if entries == [] {
          NoBackslashIsNeat(blank);
          BracketsAreNeat(OPEN_OBJECT, blank, CLOSE_OBJECT);
        } else {
          EntriesAreNeat(entries);
          BracketsAreNeat(OPEN_OBJECT, EntriesText(entries), CLOSE_OBJECT);
        }
      case _ => NoBackslashIsNeat(Text(w));
    }
  }

  lemma BracketsAreNeat(open: byte, inside: seq<byte>, close: byte)
    requires open != BACKSLASH && close != BACKSLASH && Neat(inside)
    ensures Neat([open] + (inside + [close]))
  {
    hide Neat;
    NoBackslashIsNeat([open]);
    NoBackslashIsNeat([close]);
    NeatJoin(inside, [close]);
    NeatJoin([open], inside + [close]);
  }

  lemma {:induction false} ElementsAreNeat(elements: seq<Element>)
    requires ElementsValid(elements)
    ensures Neat(ElementsText(elements))
    decreases elements
  {
    hide Neat, Text, Valid;
    if elements == [] {
      NoBackslashIsNeat([]);
    } else {
      var e := elements[0];
      TextIsNeat(e.value);
      ElementsAreNeat(elements[1..]);
      NoBackslashIsNeat(e.before);
      NoBackslashIsNeat(e.after);
      NoBackslashIsNeat([COMMA]);
      NoBackslashIsNeat([]);
      NeatJoin([COMMA], ElementsText(elements[1..]));
      var more := MoreElements(elements);
      NeatJoin(e.after, more);
      NeatJoin(Text(e.value), e.after + more);
      NeatJoin(e.before, Text(e.value) + (e.after + more));
    }
  }

  lemma {:induction false} EntriesAreNeat(entries: seq<Entry>)
    requires EntriesValid(entries)
    ensures Neat(EntriesText(entries))
    decreases entries
  {
    hide Neat, Text, Valid, Quoted, Meaning;
    if entries == [] {
      NoBackslashIsNeat([]);
    } else {
      var e := entries[0];
      TextIsNeat(e.value);
      EntriesAreNeat(entries[1..]);
      QuotedIsNeat(e.name);
      NoBackslashIsNeat(e.before);
      NoBackslashIsNeat(e.beforeColon);
      NoBackslashIsNeat(e.afterColon);
      NoBackslashIsNeat(e.after);
      NoBackslashIsNeat([COLON]);
      NoBackslashIsNeat([COMMA]);
      NoBackslashIsNeat([]);
      NeatJoin([COMMA], EntriesText(entries[1..]));
      EntryIsNeat(e, MoreEntries(entries));
    }
  }

  lemma EntryIsNeat(e: Entry, more: seq<byte>)
    requires Neat(e.before) && Neat(Quoted(e.name)) && Neat(e.beforeColon) && Neat([COLON]) && Neat(e.afterColon)
    requires Neat(Text(e.value)) && Neat(e.after) && Neat(more)
    ensures Neat(e.before + (Quoted(e.name) + (e.beforeColon + ([COLON] + (e.afterColon +
                 (Text(e.value) + (e.after + more)))))))
  {
    hide Neat, Text, Quoted;
    var value := Text(e.value) + (e.after + more);
    NeatJoin(e.after, more);
    NeatJoin(Text(e.value), e.after + more);
    NeatJoin(e.afterColon, value);
    NeatJoin([COLON], e.afterColon + value);
    NeatJoin(e.beforeColon, [COLON] + (e.afterColon + value));
    NeatJoin(Quoted(e.name), e.beforeColon + ([COLON] + (e.afterColon + value)));
    NeatJoin(e.before, Quoted(e.name) + (e.beforeColon + ([COLON] + (e.afterColon + value))));
  }

  lemma LayoutIsTidy(text: seq<byte>, v: Json)
    requires HasLayout(text, v)
    ensures Tidy(text)
  {
    hide Tidy, Text, Value, Valid;
    var mark, before, w :| IsTextOf(text, mark, before, w, v);
    NoBackslashIsNeat(mark);
    NoBackslashIsNeat(before);
    NeatJoin(mark, before);
    TextIsNeat(w);
    NeatJoin(mark + before, Text(w));
  }

  // --- an escape that the two passes read differently ---

  /** "\uABC\\", where the first pass ends one escape in front of the closing quote and the second pass takes
      that quote for an escaped one. */
  const UNTIDY: seq<byte> := [QUOTE, BACKSLASH, LETTER_U, 0x41, 0x42, 0x43, BACKSLASH, BACKSLASH, QUOTE]

  lemma UntidyScan(t: seq<byte>)
    requires t == UNTIDY + [0]
    ensures ScanString(t, 1) == Some((8, 2))
  {
    assert t[8] == QUOTE && t[7] == BACKSLASH && t[6] == BACKSLASH;
    assert ScanString(t, 8) == Some((8, 0));
    assert ScanString(t, 6) == Some((8, 1));
    assert ScanString(t, 5) == ScanString(t, 6);
    assert ScanString(t, 4) == ScanString(t, 5);
    assert ScanString(t, 3) == ScanString(t, 4);
  }

  lemma UntidyDecode(t: seq<byte>)
    requires t == UNTIDY + [0]
    ensures Decode(t, 1, 8) == Some([0, QUOTE])
  {
    assert Decode(t, 9, 8) == Some([]);
    assert t[7] == BACKSLASH && t[8] == QUOTE && ShortEscape(QUOTE) == QUOTE;
    assert [QUOTE] + [] == [QUOTE] && [0] + [QUOTE] == [0, QUOTE];
    assert Decode(t, 7, 8) == Some([QUOTE]);
    assert t[3..7] == [0x41, 0x42, 0x43, BACKSLASH];
    assert !IsHex(t[3..7][3]);
    assert Hex4(t[3..7]) == 0;
    assert Encode(0) == [0];
    assert Literal(t, 1, 8) == (6, [0]);
  }

  lemma UntidyEscape()
    ensures !Tidy(UNTIDY)
  {
    assert !Starts(UNTIDY, 0) && Starts(UNTIDY, 1);
    assert UNTIDY[6] == BACKSLASH;
    assert !TidyAt(UNTIDY, 1);
  }

  lemma UntidyParses()
    ensures Parse(UNTIDY) == Done(String([0, QUOTE]), 9)
  {
    hide ScanString, Decode;
    var t := UNTIDY + [0];
    UntidyScan(t);
    UntidyDecode(t);
    NoWord(t, 0);
    NothingOccurs(t, 0);
    ParseStart(UNTIDY, []);
    SkipNothing(t, 0);
  }

  /** It is parsed and consumed, but is no layout of any value. */
  lemma UntidyIsAccepted(v: Json)
    ensures Parse(UNTIDY) == Done(String([0, QUOTE]), 9)
    ensures !HasLayout(UNTIDY, v)
  {
    hide Tidy, Parse, HasLayout;
    UntidyParses();
    UntidyEscape();
    if HasLayout(UNTIDY, v) {
      LayoutIsTidy(UNTIDY, v);
    }
  }
}
