/** JSON values, their printed text and its parsing (cJSON.c), as functions. Texts end with the NUL
    that cJSON_Parse counts as part of them. */
module JsonText {
  import opened Bytes
  import opened Options
  import opened JsonStrings
  import opened JsonPieces
  import opened JsonEscapes
  import opened JsonNumbers

  datatype Json =
    | Null
    | False
    | True
    | Number(number: real)
    | String(text: seq<byte>)
    | Array(items: seq<Json>)
    | Object(members: seq<Member>)

  datatype Member = Member(key: seq<byte>, value: Json)

  const NESTING_LIMIT := 1000

  const NULL_TEXT: seq<byte> := [0x6E, 0x75, 0x6C, 0x6C]
  const FALSE_TEXT: seq<byte> := [0x66, 0x61, 0x6C, 0x73, 0x65]
  const TRUE_TEXT: seq<byte> := [0x74, 0x72, 0x75, 0x65]
  const COMMA: byte := 0x2C
  const COLON: byte := 0x3A
  const OPEN_ARRAY: byte := 0x5B
  const CLOSE_ARRAY: byte := 0x5D
  const OPEN_OBJECT: byte := 0x7B
  const CLOSE_OBJECT: byte := 0x7D

  function Max(a: nat, b: nat): nat { if a > b then a else b }

  /** Containers around the innermost value. */
  function Nesting(v: Json): nat
    decreases v
  {
    match v
    case Array(items) => 1 + ItemsNesting(items)
    case Object(members) => 1 + MembersNesting(members)
    case _ => 0
  }

  function ItemsNesting(items: seq<Json>): nat
    decreases items
  {
    if items == [] then 0 else Max(Nesting(items[0]), ItemsNesting(items[1..]))
  }

  function MembersNesting(members: seq<Member>): nat
    decreases members
  {
    if members == [] then 0 else Max(Nesting(members[0].value), MembersNesting(members[1..]))
  }

  predicate IsInt(number: real) {
    number == number.Floor as real && INT_MIN <= number.Floor <= INT_MAX
  }

  /** Values whose text is modelled: numbers are 32-bit integers, strings are C strings. */
  predicate Printable(v: Json)
    decreases v
  {
    match v
    case Number(number) => IsInt(number)
    case String(text) => 0 !in text
    case Array(items) => ItemsPrintable(items)
    case Object(members) => MembersPrintable(members)
    case _ => true
  }

  predicate ItemsPrintable(items: seq<Json>)
    decreases items
  {
    items == [] || (Printable(items[0]) && ItemsPrintable(items[1..]))
  }

  predicate MembersPrintable(members: seq<Member>)
    decreases members
  {
    members == [] || (0 !in members[0].key && Printable(members[0].value) && MembersPrintable(members[1..]))
  }

  // --- printing, formatted or not, at a depth ---

  function Tabs(n: nat): (s: seq<byte>)
    ensures |s| == n && forall k :: 0 <= k < n ==> s[k] == TAB
  {
    if n == 0 then [] else [TAB] + Tabs(n - 1)
  }

  function Indentation(format: bool, depth: nat): seq<byte> { if format then Tabs(depth) else [] }

  function Open(format: bool): seq<byte> { if format then [OPEN_OBJECT, LF] else [OPEN_OBJECT] }

  function Colon(format: bool): seq<byte> { if format then [COLON, TAB] else [COLON] }

  function Separator(format: bool): seq<byte> { if format then [COMMA, SPACE] else [COMMA] }

  /** What stands between an item and the others. */
  function Between(format: bool, last: bool): seq<byte> { if last then [] else Separator(format) }

  function Render(v: Json, format: bool, depth: nat): seq<byte>
    requires Printable(v)
    decreases v
  {
    match v
    case Null => NULL_TEXT
    case False => FALSE_TEXT
    case True => TRUE_TEXT
    case Number(number) => Decimal(number.Floor)
    case String(text) => PrintedString(text)
    case Array(items) => [OPEN_ARRAY] + (RenderItems(items, format, depth + 1) + [CLOSE_ARRAY])
    case Object(members) =>
      Open(format) + (RenderMembers(members, format, depth + 1) + (Indentation(format, depth) + [CLOSE_OBJECT]))
  }

  function RenderItems(items: seq<Json>, format: bool, depth: nat): seq<byte>
    requires ItemsPrintable(items)
    decreases items
  {
    if items == [] then []
    else
      Render(items[0], format, depth) +
      (Between(format, |items| == 1) + RenderItems(items[1..], format, depth))
  }

  function MemberStart(format: bool, depth: nat, key: seq<byte>): seq<byte> {
    Indentation(format, depth) + (PrintedString(key) + Colon(format))
  }

  function MemberEnd(format: bool, last: bool): seq<byte> {
    (if last then [] else [COMMA]) + (if format then [LF] else [])
  }

  function RenderMembers(members: seq<Member>, format: bool, depth: nat): seq<byte>
    requires MembersPrintable(members)
    decreases members
  {
    if members == [] then []
    else
      MemberStart(format, depth, members[0].key) +
      (Render(members[0].value, format, depth) +
       (MemberEnd(format, |members| == 1) + RenderMembers(members[1..], format, depth)))
  }

  // --- printed text is a C string ---

  lemma {:induction false} TextOfHasNoNul(pieces: seq<Piece>)
    requires forall i :: 0 <= i < |pieces| ==> 0 !in pieces[i].Text()
    ensures 0 !in TextOf(pieces)
  {
    if pieces != [] {
      TextOfHasNoNul(pieces[1..]);
    }
  }

  lemma PrintedStringHasNoNul(s: seq<byte>)
    requires 0 !in s
    ensures 0 !in PrintedString(s)
  {
    hide PrintPiece, TextOf, Piece.Text;
    forall i | 0 <= i < |s| ensures 0 !in PrintPieces(s)[i].Text() {
      PrintPieceHasNoNul(s[i]);
    }
    TextOfHasNoNul(PrintPieces(s));
  }

  lemma PrintPieceHasNoNul(b: byte)
    requires b != 0
    ensures 0 !in PrintPiece(b).Text()
  {
  }

  lemma {:induction false} RenderHasNoNul(v: Json, format: bool, depth: nat)
    requires Printable(v)
    ensures 0 !in Render(v, format, depth)
    decreases v
  {
    hide PrintedString, Decimal;
    match v {
      case String(text) => PrintedStringHasNoNul(text);
      case Array(items) => RenderItemsHasNoNul(items, format, depth + 1);
      case Object(members) => RenderMembersHasNoNul(members, format, depth + 1);
      case _ =>
    }
  }

  lemma {:induction false} RenderItemsHasNoNul(items: seq<Json>, format: bool, depth: nat)
    requires ItemsPrintable(items)
    ensures 0 !in RenderItems(items, format, depth)
    decreases items
  {
    hide Render;
    if items != [] {
      RenderHasNoNul(items[0], format, depth);
      RenderItemsHasNoNul(items[1..], format, depth);
    }
  }

  lemma {:induction false} RenderMembersHasNoNul(members: seq<Member>, format: bool, depth: nat)
    requires MembersPrintable(members)
    ensures 0 !in RenderMembers(members, format, depth)
    decreases members
  {
    hide Render, PrintedString;
    if members != [] {
      PrintedStringHasNoNul(members[0].key);
      RenderHasNoNul(members[0].value, format, depth);
      RenderMembersHasNoNul(members[1..], format, depth);
    }
  }

  // --- parsing ---

  /** A C string with the NUL that ends it. */
  predicate Terminated(t: seq<byte>) { t != [] && t[|t| - 1] == 0 }

  /** buffer_skip_whitespace: to the next byte above the space, or to the last byte. */
  function SkipWhitespace(t: seq<byte>, offset: nat): (o: nat)
    requires offset < |t|
    ensures offset <= o < |t|
    decreases |t| - offset
  {
    if t[offset] > 32 || offset + 1 == |t| then offset else SkipWhitespace(t, offset + 1)
  }

  datatype Parsed = Fail | Done(value: Json, next: nat)

  datatype ParsedItems = NoItems | Items(items: seq<Json>, next: nat)

  datatype ParsedMembers = NoMembers | Members(members: seq<Member>, next: nat)

  /** The depth counts the containers around the value; cJSON_Parse starts at 0. Values of any nesting can be
      compared by starting below. */
  function ParseValue(t: seq<byte>, offset: nat, depth: int): (r: Parsed)
    requires Terminated(t) && offset < |t|
    ensures r.Done? ==> offset < r.next < |t|
    decreases |t| - offset, 2
  {
    if Occurs(t, offset, NULL_TEXT) then
      OccursAt(t, offset, NULL_TEXT, 3);
      Done(Null, offset + 4)
    else if Occurs(t, offset, FALSE_TEXT) then
      OccursAt(t, offset, FALSE_TEXT, 4);
      Done(False, offset + 5)
    else if Occurs(t, offset, TRUE_TEXT) then
      OccursAt(t, offset, TRUE_TEXT, 3);
      Done(True, offset + 4)
    else if t[offset] == QUOTE then
      var r := StringAtOffset(t, offset);
      if r.None? then Fail else Done(String(r.value.0), r.value.1)
    else if t[offset] == MINUS || IsDigit(t[offset]) then
      var r := NumberAt(t, offset);
      if r.1 == 0 then Fail else Done(Number(r.0), offset + r.1)
    else if t[offset] == OPEN_ARRAY then ParseArray(t, offset, depth)
    else if t[offset] == OPEN_OBJECT then ParseObject(t, offset, depth)
    else Fail
  }

  function ParseArray(t: seq<byte>, offset: nat, depth: int): (r: Parsed)
    requires Terminated(t) && offset < |t| && t[offset] == OPEN_ARRAY
    ensures r.Done? ==> offset < r.next < |t|
    decreases |t| - offset, 1
  {
    if depth >= NESTING_LIMIT then Fail
    else
      var first := SkipWhitespace(t, offset + 1);
      if t[first] == CLOSE_ARRAY then Done(Array([]), first + 1)
      else
        match ParseItems(t, first, depth + 1)
        case NoItems => Fail
        case Items(items, next) => Done(Array(items), next)
  }

  /** Elements from offset on, and the closing bracket. */
  function ParseItems(t: seq<byte>, offset: nat, depth: int): (r: ParsedItems)
    requires Terminated(t) && offset < |t|
    ensures r.Items? ==> offset < r.next < |t|
    decreases |t| - offset, 3
  {
    match ParseValue(t, SkipWhitespace(t, offset), depth)
    case Fail => NoItems
    case Done(value, next) =>
      var after := SkipWhitespace(t, next);
      if t[after] == COMMA then
        match ParseItems(t, after + 1, depth)
        case NoItems => NoItems
        case Items(items, end) => Items([value] + items, end)
      else if t[after] == CLOSE_ARRAY then Items([value], after + 1)
      else NoItems
  }

  function ParseObject(t: seq<byte>, offset: nat, depth: int): (r: Parsed)
    requires Terminated(t) && offset < |t| && t[offset] == OPEN_OBJECT
    ensures r.Done? ==> offset < r.next < |t|
    decreases |t| - offset, 1
  {
    if depth >= NESTING_LIMIT then Fail
    else
      var first := SkipWhitespace(t, offset + 1);
      if t[first] == CLOSE_OBJECT then Done(Object([]), first + 1)
      else
        match ParseMembers(t, first, depth + 1)
        case NoMembers => Fail
        case Members(members, next) => Done(Object(members), next)
  }

  /** The name of a member and the offset behind its colon. */
  function ParseName(t: seq<byte>, offset: nat): (r: Option<(seq<byte>, nat)>)
    requires Terminated(t) && offset < |t|
    ensures r.Some? ==> offset < r.value.1 < |t|
  {
    var name := StringAtOffset(t, SkipWhitespace(t, offset));
    if name.None? then None
    else
      var colon := SkipWhitespace(t, name.value.1);
      if t[colon] == COLON then Some((name.value.0, colon + 1)) else None
  }

  function ParseMembers(t: seq<byte>, offset: nat, depth: int): (r: ParsedMembers)
    requires Terminated(t) && offset < |t|
    ensures r.Members? ==> offset < r.next < |t|
    decreases |t| - offset, 3
  {
    match ParseName(t, offset)
    case None => NoMembers
    case Some(name) =>
      match ParseValue(t, SkipWhitespace(t, name.1), depth)
      case Fail => NoMembers
      case Done(value, next) =>
        var after := SkipWhitespace(t, next);
        if t[after] == COMMA then
          match ParseMembers(t, after + 1, depth)
          case NoMembers => NoMembers
          case Members(members, end) => Members([Member(name.0, value)] + members, end)
        else if t[after] == CLOSE_OBJECT then Members([Member(name.0, value)], after + 1)
        else NoMembers
  }

  const BYTE_ORDER_MARK: seq<byte> := [0xEF, 0xBB, 0xBF]

  /** cJSON_Parse */
  function Parse(text: seq<byte>): Parsed {
    var t := CString(text) + [0];
    var start := if 4 < |t| && Occurs(t, 0, BYTE_ORDER_MARK) then 3 else 0;
    ParseValue(t, SkipWhitespace(t, start), 0)
  }
}
