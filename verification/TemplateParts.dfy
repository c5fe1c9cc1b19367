/** Feedback templates part by part (code/hand.c): what each part is in the template's bytes, and what a student
    reads in its place. */
module TemplateParts {
  import opened Bytes
  import opened Options
  import opened Sheets
  import opened Templates

  datatype Part =
    | Plain(text: seq<byte>)
    | Dollars                       // $$
    | Dollar(next: byte)            // $ in front of another byte
    | CellOf(name: seq<Fragment>)   // ${name}
    | FileAt(path: seq<Fragment>)   // ${./path}
  {
    predicate Valid() {
      match this
      case Plain(text) => IsPlain(text)
      case Dollars => true
      case Dollar(next) => next != 0x24 && next != 0x7B && next != 0x7D && next != 0x00
      case CellOf(name) => IsName(name) && !([0x2E, 0x2F] <= NameOf(name))
      case FileAt(path) => IsName(path)
    }

    function Bytes(): seq<byte> {
      match this
      case Plain(text) => text
      case Dollars => [0x24, 0x24]
      case Dollar(next) => [0x24, next]
      case CellOf(name) => [0x24, 0x7B] + (NameOf(name) + [0x7D])
      case FileAt(path) => [0x24, 0x7B] + (([0x2E, 0x2F] + NameOf(path)) + [0x7D])
    }
  }

  /** A name may hold placeholders, which belong to its text. */
  datatype Fragment = Chars(text: seq<byte>) | Nested(inner: seq<Fragment>)

  function NameOf(name: seq<Fragment>): seq<byte> {
    if name == [] then []
    else FragmentOf(name[0]) + NameOf(name[1..])
  }

  function FragmentOf(fragment: Fragment): seq<byte> {
    match fragment
    case Chars(text) => text
    case Nested(inner) => [0x24, 0x7B] + (NameOf(inner) + [0x7D])
  }

  predicate IsName(name: seq<Fragment>) {
    name == []
    || ((match name[0]
         case Chars(text) => IsPlain(text)
         case Nested(inner) => IsName(inner))
        && IsName(name[1..]))
  }

  /** Neither $ nor } nor NUL. */
  predicate IsPlain(text: seq<byte>) { 0x24 !in text && 0x7D !in text && 0x00 !in text }

  function BytesOf(parts: seq<Part>): seq<byte> {
    if parts == [] then [] else parts[0].Bytes() + BytesOf(parts[1..])
  }

  /** Column x is the first one under the name. */
  predicate IsColumn(row: Row, name: seq<byte>, x: nat) {
    x < |row.names| && row.names[x] == name && forall k :: 0 <= k < x ==> row.names[k] != name
  }

  /** What a part becomes: itself, $, the student's cell in the first column of that name, or the content of a file
      in the student's directory; nothing, and not found, where no column has the name. */
  ghost predicate Becomes(files: Files, row: Row, part: Part, text: seq<byte>, found: bool)
    requires row.Valid()
  {
    match part
    case Plain(plain) => text == plain && found
    case Dollars => text == [0x24] && found
    case Dollar(next) => text == [0x24, next] && found
    case CellOf(name) =>
      if found then exists x :: 0 <= x < |row.names| && IsColumn(row, NameOf(name), x) && text == row.cells[x]
      else NameOf(name) !in row.names && text == []
    case FileAt(path) => text == files.read(files.dir + [0x2F] + ([0x2E, 0x2F] + NameOf(path))) && found
  }

  function Concat(texts: seq<seq<byte>>): seq<byte> {
    if texts == [] then [] else texts[0] + Concat(texts[1..])
  }

  // --- placeholders ---

  predicate HasNoBrace(text: seq<byte>) { 0x24 !in text && 0x7D !in text }

  lemma HeadAndTail(text: seq<byte>)
    requires HasNoBrace(text) && text != []
    ensures text[0] != 0x24 && text[0] != 0x7D && HasNoBrace(text[1..])
  {
  }

  /** The scan inside a placeholder goes over plain text... */
  lemma {:induction false} OverPlain(t: seq<byte>, i: nat, depth: nat, text: seq<byte>, pair: seq<byte>)
    requires HasNoBrace(text) && Occurs(t, i, text) && depth > 0
    ensures CloseAt(t, i, depth) == CloseAt(t, i + |text|, depth)
    ensures Inside(t, i, depth, pair) == Inside(t, i + |text|, depth, pair)
    decreases |text|
  {
    if text != [] {
      hide CloseAt, Inside, Occurs, HasNoBrace;
      HeadAndTail(text);
      OccursAt(t, i, text, 0);
      assert [text[0]] + text[1..] == text;
      OccursSplit(t, i, [text[0]], text[1..]);
      InsideOther(t, i, depth, pair);
      OverPlain(t, i + 1, depth, text[1..], pair);
    }
  }

  /** ...and over nested placeholders, counting their braces. */
  lemma {:induction false} OverName(t: seq<byte>, i: nat, depth: nat, name: seq<Fragment>, pair: seq<byte>)
    requires IsName(name) && Occurs(t, i, NameOf(name)) && depth > 0
    ensures CloseAt(t, i, depth) == CloseAt(t, i + |NameOf(name)|, depth)
    ensures Inside(t, i, depth, pair) == Inside(t, i + |NameOf(name)|, depth, pair)
    decreases name, 0
  {
    hide CloseAt, Inside, Occurs;
    if name != [] {
      var first := FragmentOf(name[0]);
      OccursSplit(t, i, first, NameOf(name[1..]));
      if name[0].Chars? {
        OverPlain(t, i, depth, first, pair);
      } else {
        OverNested(t, i, depth, name[0].inner, pair);
      }
      OverName(t, i + |first|, depth, name[1..], pair);
    }
  }

  lemma {:induction false} OverNested(t: seq<byte>, i: nat, depth: nat, inner: seq<Fragment>, pair: seq<byte>)
    requires IsName(inner) && Occurs(t, i, [0x24, 0x7B] + (NameOf(inner) + [0x7D])) && depth > 0
    ensures var end := i + |NameOf(inner)| + 3;
            && CloseAt(t, i, depth) == CloseAt(t, end, depth)
            && Inside(t, i, depth, pair) == Inside(t, end, depth, pair)
    decreases inner, 1
  {
    hide CloseAt, Inside, Occurs;
    var nested := NameOf(inner);
    OccursSplit(t, i, [0x24, 0x7B], nested + [0x7D]);
    OccursAt(t, i, [0x24, 0x7B], 0);
    OccursAt(t, i, [0x24, 0x7B], 1);
    OccursSplit(t, i + 2, nested, [0x7D]);
    OccursAt(t, i + 2 + |nested|, [0x7D], 0);
    InsideOpen(t, i, depth, pair);
    OverName(t, i + 2, depth + 1, inner, pair);
    InsideClose(t, i + 2 + |nested|, depth + 1, pair);
  }

  /** A placeholder in front of any text: where its name stands. */
  lemma NamedPlaceholder(name: seq<Fragment>, rest: seq<byte>)
    requires IsName(name)
    ensures var t := ([0x24, 0x7B] + (NameOf(name) + [0x7D])) + rest;
            var c := 2 + |NameOf(name)|;
            && IsOpen(t, 0) && !IsPair(t, 0) && CloseAt(t, 2, 1) == c < |t| && Inside(t, 2, 1, [DOLLAR]) == []
            && t[2..c] == NameOf(name) && 0 !in NameOf(name) && t[c + 1..] == rest
  {
    hide CloseAt, Inside, Occurs, NameOf, IsName;
    var t := ([0x24, 0x7B] + (NameOf(name) + [0x7D])) + rest;
    var c := 2 + |NameOf(name)|;
    StandsBetween(NameOf(name), rest);
    OverName(t, 2, 1, name, [DOLLAR]);
    InsideClose(t, c, 1, [DOLLAR]);
    NameHasNoNul(name);
  }

  lemma {:induction false} NameHasNoNul(name: seq<Fragment>)
    requires IsName(name)
    ensures 0 !in NameOf(name)
  {
    if name != [] {
      if name[0].Nested? {
        NameHasNoNul(name[0].inner);
      }
      NameHasNoNul(name[1..]);
    }
  }

  lemma FileNames(name: seq<byte>)
    ensures IsFileName(name) <==> [0x2E, 0x2F] <= name
  {
    if |name| >= 2 {
      assert name[..2] == [name[0], name[1]];
    }
  }

  lemma ColumnIsFound(row: Row, name: seq<Fragment>, text: seq<byte>, found: bool, files: Files)
    requires row.Valid() && !([0x2E, 0x2F] <= NameOf(name)) && Becomes(files, row, CellOf(name), text, found)
    ensures Fill(files, row, NameOf(name)) == (text, found)
  {
    hide Path, NameOf;
    LabelIndexFirst(row.names, NameOf(name));
    FileNames(NameOf(name));
  }

  /** The name of a file, as the placeholder has it. */
  function FileName(path: seq<Fragment>): seq<Fragment> { [Chars([0x2E, 0x2F])] + path }

  lemma FileNameOf(path: seq<Fragment>)
    requires IsName(path)
    ensures IsName(FileName(path)) && NameOf(FileName(path)) == [0x2E, 0x2F] + NameOf(path)
  {
    assert FileName(path)[1..] == path;
  }

  lemma FileIsFound(row: Row, path: seq<Fragment>, text: seq<byte>, files: Files)
    requires row.Valid() && Becomes(files, row, FileAt(path), text, true)
    ensures var name := [0x2E, 0x2F] + NameOf(path);
            && IsFileName(name) && Fill(files, row, name) == (text, true) && files.read(Path(files, name)) == text
  {
    hide NameOf;
  }

  lemma RenderPlaceholder(files: Files, row: Row, name: seq<Fragment>, rest: seq<byte>)
    requires row.Valid() && IsName(name)
    ensures Render(files, row, ([0x24, 0x7B] + (NameOf(name) + [0x7D])) + rest) ==
            Then(Fill(files, row, NameOf(name)), Render(files, row, rest))
    ensures WellFormed(([0x24, 0x7B] + (NameOf(name) + [0x7D])) + rest) == WellFormed(rest)
  {
    hide CloseAt, Inside, Fill, NameOf;
    NamedPlaceholder(name, rest);
    WriteNothing(Then(Fill(files, row, NameOf(name)), Render(files, row, rest)));
  }

  lemma {:induction false} RenderPlain(files: Files, row: Row, text: seq<byte>, rest: seq<byte>)
    requires row.Valid() && IsPlain(text)
    ensures Render(files, row, text + rest) == Write(text, Render(files, row, rest))
    ensures WellFormed(text + rest) == WellFormed(rest)
    decreases |text|
  {
    hide CloseAt, Inside, Fill;
    if text == [] {
      assert text + rest == rest;
      WriteNothing(Render(files, row, rest));
    } else {
      var t := text + rest;
      assert t[0] == text[0] && t[0] in text && t[1..] == text[1..] + rest;
      RenderPlain(files, row, text[1..], rest);
      WriteTwice([text[0]], text[1..], Render(files, row, rest));
      assert [text[0]] + text[1..] == text;
    }
  }

  lemma RenderPart(files: Files, row: Row, part: Part, rest: seq<byte>, text: seq<byte>, found: bool)
    requires row.Valid() && part.Valid() && Becomes(files, row, part, text, found)
    ensures Render(files, row, part.Bytes() + rest) == Then((text, found), Render(files, row, rest))
    ensures WellFormed(part.Bytes() + rest) == WellFormed(rest)
  {
    hide Fill, Becomes, Render, WellFormed, CloseAt, Inside, NameOf;
    match part
    case Plain(plain) =>
      RenderPlain(files, row, plain, rest);
      PlainBecomes(files, row, part, text, found);
    case Dollars =>
      RenderDollars(files, row, rest);
      PlainBecomes(files, row, part, text, found);
    case Dollar(next) =>
      RenderDollar(files, row, next, rest);
      PlainBecomes(files, row, part, text, found);
    case CellOf(name) =>
      RenderPlaceholder(files, row, name, rest);
      ColumnIsFound(row, name, text, found, files);
    case FileAt(path) =>
      PlainBecomes(files, row, part, text, found);
      FileIsFound(row, path, text, files);
      FileNameOf(path);
      RenderPlaceholder(files, row, FileName(path), rest);
  }

  lemma PlainBecomes(files: Files, row: Row, part: Part, text: seq<byte>, found: bool)
    requires row.Valid() && !part.CellOf? && Becomes(files, row, part, text, found)
    ensures found && (part.Plain? ==> text == part.text) && (part.Dollars? ==> text == [0x24])
            && (part.Dollar? ==> text == [0x24, part.next])
  {
  }

  lemma RenderDollar(files: Files, row: Row, next: byte, rest: seq<byte>)
    requires row.Valid() && next != 0x24 && next != 0x7B && next != 0x7D && next != 0x00
    ensures Render(files, row, [0x24, next] + rest) == Write([0x24, next], Render(files, row, rest))
    ensures WellFormed([0x24, next] + rest) == WellFormed(rest)
  {
    hide CloseAt, Inside, Fill;
    var t := [0x24, next] + rest;
    assert t[1..] == [next] + rest && t[1..][1..] == rest;
    WriteTwice([0x24], [next], Render(files, row, rest));
    assert Render(files, row, t[1..]) == Write([next], Render(files, row, rest));
    assert [0x24] + [next] == [0x24, next];
  }

  lemma RenderDollars(files: Files, row: Row, rest: seq<byte>)
    requires row.Valid()
    ensures Render(files, row, [0x24, 0x24] + rest) == Write([0x24], Render(files, row, rest))
    ensures WellFormed([0x24, 0x24] + rest) == WellFormed(rest)
  {
    hide CloseAt, Inside, Fill;
    assert ([0x24, 0x24] + rest)[2..] == rest;
  }

  ghost predicate AllBecome(files: Files, row: Row, parts: seq<Part>, texts: seq<seq<byte>>, found: seq<bool>)
    requires row.Valid()
  {
    && |parts| == |texts| == |found|
    && forall i :: 0 <= i < |parts| ==> parts[i].Valid() && Becomes(files, row, parts[i], texts[i], found[i])
  }

  /** The single substitution, part by part; it fails if and only if some name is under no column. */
  lemma {:induction false} RenderParts(files: Files, row: Row, parts: seq<Part>,
                                       texts: seq<seq<byte>>, found: seq<bool>)
    requires row.Valid() && AllBecome(files, row, parts, texts, found)
    ensures Render(files, row, BytesOf(parts)) == (Concat(texts), false !in found)
    ensures WellFormed(BytesOf(parts))
    decreases |parts|
  {
    hide Render, Becomes, WellFormed, Part.Valid, Part.Bytes;
    if parts == [] {
      NothingRendered(files, row);
    } else {
      RenderParts(files, row, parts[1..], texts[1..], found[1..]);
      RenderPart(files, row, parts[0], BytesOf(parts[1..]), texts[0], found[0]);
      assert found == [found[0]] + found[1..];
    }
  }

  lemma NothingRendered(files: Files, row: Row)
    requires row.Valid()
    ensures Render(files, row, []) == ([], true) && WellFormed([])
  {
  }

  // --- stage 1 part by part ---

  function Content(files: Files, path: seq<Fragment>): seq<byte> {
    files.read(files.dir + [0x2F] + ([0x2E, 0x2F] + NameOf(path)))
  }

  /** What stage 1 writes for a part: the file in place of its placeholder, anything else as it stands. */
  function Reported(files: Files, part: Part): seq<byte> {
    if part.FileAt? then Content(files, part.path) else part.Bytes()
  }

  function Report(files: Files, parts: seq<Part>): seq<byte> {
    if parts == [] then [] else Reported(files, parts[0]) + Report(files, parts[1..])
  }

  /** The parts can be told apart in the bytes, and the files named have plain contents. */
  ghost predicate AllPlain(files: Files, parts: seq<Part>) {
    forall i :: 0 <= i < |parts| ==> parts[i].Valid() && (parts[i].FileAt? ==> IsPlain(Content(files, parts[i].path)))
  }

  lemma {:induction false} Stage1Plain(files: Files, text: seq<byte>, rest: seq<byte>)
    requires IsPlain(text)
    ensures Stage1(files, text + rest) == text + Stage1(files, rest)
    ensures PlainFiles(files, text + rest) == PlainFiles(files, rest)
    decreases |text|
  {
    hide CloseAt, Inside, ReplaceByFile;
    if text == [] {
      assert text + rest == rest;
    } else {
      var t := text + rest;
      assert t[0] == text[0] && t[0] in text && t[1..] == text[1..] + rest;
      Stage1Plain(files, text[1..], rest);
      assert [text[0]] + (text[1..] + Stage1(files, rest)) == text + Stage1(files, rest);
    }
  }

  lemma Stage1Name(files: Files, name: seq<Fragment>, rest: seq<byte>)
    requires IsName(name)
    ensures var t := ([0x24, 0x7B] + (NameOf(name) + [0x7D])) + rest;
            && Stage1(files, t) == ReplaceByFile(files, NameOf(name)) + Stage1(files, rest)
            && (PlainFiles(files, t) <==>
                  (IsFileName(NameOf(name)) ==> PlainFile(files.read(Path(files, NameOf(name)))))
                  && PlainFiles(files, rest))
  {
    hide CloseAt, Inside, ReplaceByFile, Path, IsFileName, PlainFile, NameOf;
    NamedPlaceholder(name, rest);
    InsideEmptyForBoth(([0x24, 0x7B] + (NameOf(name) + [0x7D])) + rest, 2, 1);
  }

  lemma ReportedName(files: Files, name: seq<byte>)
    requires !([0x2E, 0x2F] <= name)
    ensures ReplaceByFile(files, name) == [0x24, 0x7B] + (name + [0x7D]) && !IsFileName(name)
  {
    FileNames(name);
  }

  lemma ReportedPart(files: Files, part: Part, rest: seq<byte>)
    requires part.Valid() && (part.FileAt? ==> IsPlain(Content(files, part.path)))
    ensures Stage1(files, part.Bytes() + rest) == Reported(files, part) + Stage1(files, rest)
    ensures PlainFiles(files, part.Bytes() + rest) == PlainFiles(files, rest)
  {
    hide Stage1, PlainFiles, ReplaceByFile, NameOf;
    match part
    case Plain(text) => Stage1Plain(files, text, rest);
    case Dollars =>
      assert ([0x24, 0x24] + rest)[2..] == rest;
      DollarsStay(files, rest);
    case Dollar(next) => DollarStays(files, next, rest);
    case CellOf(name) =>
      Stage1Name(files, name, rest);
      ReportedName(files, NameOf(name));
    case FileAt(path) =>
      FileNameOf(path);
      Stage1Name(files, FileName(path), rest);
      FileIsRead(files, path);
  }

  lemma DollarStays(files: Files, next: byte, rest: seq<byte>)
    requires next != 0x24 && next != 0x7B
    ensures Stage1(files, [0x24, next] + rest) == [0x24, next] + Stage1(files, rest)
    ensures PlainFiles(files, [0x24, next] + rest) == PlainFiles(files, rest)
  {
    hide CloseAt, Inside, ReplaceByFile;
    var t := [0x24, next] + rest;
    assert t[1..] == [next] + rest && t[1..][1..] == rest;
    assert Stage1(files, t[1..]) == [next] + Stage1(files, rest);
    assert [0x24] + ([next] + Stage1(files, rest)) == [0x24, next] + Stage1(files, rest);
  }

  lemma DollarsStay(files: Files, rest: seq<byte>)
    ensures Stage1(files, [0x24, 0x24] + rest) == [0x24, 0x24] + Stage1(files, rest)
    ensures PlainFiles(files, [0x24, 0x24] + rest) == PlainFiles(files, rest)
  {
    hide CloseAt, Inside, ReplaceByFile;
    assert ([0x24, 0x24] + rest)[2..] == rest;
  }

  lemma FileIsRead(files: Files, path: seq<Fragment>)
    ensures var name := [0x2E, 0x2F] + NameOf(path);
            && IsFileName(name) && ReplaceByFile(files, name) == Content(files, path)
            && files.read(Path(files, name)) == Content(files, path)
  {
  }

  /** The report of a template is its parts with the files put in; the template meets what two stages need to be
      one substitution. */
  lemma {:induction false} ReportOfParts(files: Files, parts: seq<Part>)
    requires AllPlain(files, parts)
    ensures Stage1(files, BytesOf(parts)) == Report(files, parts)
    ensures PlainFiles(files, BytesOf(parts))
    decreases |parts|
  {
    hide Stage1, PlainFiles, Reported, Part.Valid, Part.Bytes, IsPlain;
    if parts == [] {
      NothingReported(files);
    } else {
      ReportOfParts(files, parts[1..]);
      ReportedPart(files, parts[0], BytesOf(parts[1..]));
    }
  }

  lemma NothingReported(files: Files)
    ensures Stage1(files, []) == [] && PlainFiles(files, [])
  {
  }

  // --- what is no part ---

  /** A closing brace outside of a placeholder is left out by stage 2. */
  lemma StrayBraceIsDropped(row: Row, rest: seq<byte>)
    requires row.Valid()
    ensures Stage2(row, [0x7D] + rest) == Stage2(row, rest)
  {
    assert ([0x7D] + rest)[1..] == rest;
  }

  /** A placeholder that the text ends in is left out by both stages. */
  lemma OpenPlaceholderIsDropped(files: Files, row: Row, name: seq<Fragment>)
    requires row.Valid() && IsName(name)
    ensures Stage1(files, [0x24, 0x7B] + NameOf(name)) == []
    ensures Stage2(row, [0x24, 0x7B] + NameOf(name)) == ([], true)
  {
    var t := [0x24, 0x7B] + NameOf(name);
    assert t[2..|t|] == NameOf(name);
    OverName(t, 2, 1, name, [DOLLAR]);
    OverName(t, 2, 1, name, [DOLLAR, DOLLAR]);
    hide NameOf;
  }

  /** A $$ inside a placeholder is written in front of what the placeholder becomes, and belongs to its name. */
  lemma DollarsInside(files: Files, row: Row, a: seq<byte>, b: seq<byte>, rest: seq<byte>)
    requires row.Valid() && IsPlain(a) && IsPlain(b)
    ensures var name := a + ([0x24, 0x24] + b);
            var t := ([0x24, 0x7B] + (name + [0x7D])) + rest;
            && Stage2(row, t) == Write([0x24], Then(ReplaceByCell(row, name), Stage2(row, rest)))
            && Stage1(files, t) == [0x24, 0x24] + (ReplaceByFile(files, name) + Stage1(files, rest))
  {
    hide CloseAt, Inside, ReplaceByFile, ReplaceByCell;
    var name := a + ([0x24, 0x24] + b);
    var t := ([0x24, 0x7B] + (name + [0x7D])) + rest;
    InsideDollars(t, a, b, [DOLLAR]);
    InsideDollars(t, a, b, [DOLLAR, DOLLAR]);
    assert t[2..2 + |name|] == name && t[2 + |name| + 1..] == rest;
    assert 0 !in name;
  }

  lemma InsideDollars(t: seq<byte>, a: seq<byte>, b: seq<byte>, pair: seq<byte>)
    requires IsPlain(a) && IsPlain(b) && ([0x24, 0x7B] + ((a + ([0x24, 0x24] + b)) + [0x7D])) <= t
    ensures CloseAt(t, 2, 1) == 2 + |a| + 2 + |b| && Inside(t, 2, 1, pair) == pair
  {
    hide CloseAt, Inside;
    var p := 2 + |a|;
    assert t[2..p] == a && t[p..p + 2] == [0x24, 0x24] && t[p + 2..p + 2 + |b|] == b && t[p + 2 + |b|] == 0x7D;
    OverPlain(t, 2, 1, a, pair);
    OccursAt(t, p, [0x24, 0x24], 0);
    OccursAt(t, p, [0x24, 0x24], 1);
    InsidePair(t, p, 1, pair);
    OverPlain(t, p + 2, 1, b, pair);
    InsideClose(t, p + 2 + |b|, 1, pair);
  }

  /** A NUL in a placeholder ends its name for stage 1. */
  lemma NulEndsName(files: Files, a: seq<byte>, b: seq<byte>, rest: seq<byte>)
    requires IsPlain(a) && HasNoBrace(b)
    ensures Stage1(files, ([0x24, 0x7B] + ((a + ([0x00] + b)) + [0x7D])) + rest) ==
            ReplaceByFile(files, a) + Stage1(files, rest)
  {
    hide CloseAt, Inside, ReplaceByFile, CString, Occurs, Stage1;
    var name := a + ([0x00] + b);
    var t := ([0x24, 0x7B] + (name + [0x7D])) + rest;
    var c := 2 + |name|;
    StandsBetween(name, rest);
    OverPlain(t, 2, 1, name, [DOLLAR, DOLLAR]);
    InsideClose(t, c, 1, [DOLLAR, DOLLAR]);
    assert name[..|a|] == a && name[|a|] == 0;
    CStringEnds(name, |a|);
    Stage1AtPlaceholder(files, t, c);
  }

  lemma Stage1AtPlaceholder(files: Files, t: seq<byte>, c: nat)
    requires IsOpen(t, 0) && CloseAt(t, 2, 1) == c < |t| && Inside(t, 2, 1, [DOLLAR, DOLLAR]) == []
    ensures Stage1(files, t) == ReplaceByFile(files, CString(t[2..c])) + Stage1(files, t[c + 1..])
  {
    hide CloseAt, Inside, ReplaceByFile, CString;
    assert !IsPair(t, 0);
  }

  lemma StandsBetween(name: seq<byte>, rest: seq<byte>)
    ensures var t := ([0x24, 0x7B] + (name + [0x7D])) + rest;
            var c := 2 + |name|;
            && IsOpen(t, 0) && !IsPair(t, 0) && Occurs(t, 2, name) && c < |t| && t[c] == 0x7D
            && t[2..c] == name && t[c + 1..] == rest
  {
  }

  lemma {:induction false} CStringEnds(s: seq<byte>, n: nat)
    requires n < |s| && s[n] == 0 && 0 !in s[..n]
    ensures CString(s) == s[..n]
    decreases n
  {
    if n > 0 {
      assert s[0] in s[..n] && s[1..][..n - 1] == s[..n][1..];
      CStringEnds(s[1..], n - 1);
    }
  }
}
