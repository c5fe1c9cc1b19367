/** format_feedback_issues (code/hand.c): stage 2 for every row of the sheet, with the template
    texts in a string array and the results appended to another. */
module FeedbackIssues {
  import opened Bytes
  import opened GrowableBuffers
  import opened StringArrays
  import opened Sheets
  import opened Templates

  /** What is still to come when the scan stands at i. */
  ghost function Left(row: Row, t: seq<byte>, i: nat, depth: nat, name: nat): Out
    requires row.Valid() && i <= |t| && (depth > 0 ==> 2 <= name <= i)
  {
    if depth == 0 then Stage2(row, t[i..]) else Stage2From(row, t[name - 2..], i - (name - 2), depth)
  }

  lemma AtPair(row: Row, t: seq<byte>, i: nat, depth: nat, name: nat)
    requires row.Valid() && i <= |t| && (depth > 0 ==> 2 <= name <= i) && IsPair(t, i)
    ensures Left(row, t, i, depth, name) == Write([DOLLAR], Left(row, t, i + 2, depth, name))
  {
    hide ReplaceByCell, CloseAt, Inside;
    if depth == 0 {
      assert IsPair(t[i..], 0) && t[i..][2..] == t[i + 2..];
    } else {
      hide Stage2;
      var u, j := t[name - 2..], i - (name - 2);
      assert IsPair(u, j);
      InsidePair(u, j, depth, [DOLLAR]);
      var c := CloseAt(u, j, depth);
      var rest: Out := if c == |u| then ([], true) else Then(ReplaceByCell(row, u[2..c]), Stage2(row, u[c + 1..]));
      WriteTwice([DOLLAR], Inside(u, j + 2, depth, [DOLLAR]), rest);
    }
  }

  lemma AtOpen(row: Row, t: seq<byte>, i: nat, depth: nat, name: nat)
    requires row.Valid() && i <= |t| && (depth > 0 ==> 2 <= name <= i) && IsOpen(t, i)
    ensures Left(row, t, i, depth, name) == Left(row, t, i + 2, depth + 1, if depth == 0 then i + 2 else name)
  {
    hide ReplaceByCell, CloseAt, Inside;
    if depth == 0 {
      assert IsOpen(t[i..], 0) && !IsPair(t[i..], 0);
    } else {
      hide Stage2;
      var u, j := t[name - 2..], i - (name - 2);
      assert IsOpen(u, j);
      InsideOpen(u, j, depth, [DOLLAR]);
    }
  }

  lemma AtClose(row: Row, t: seq<byte>, i: nat, depth: nat, name: nat)
    requires row.Valid() && i < |t| && t[i] == CLOSE && (depth > 0 ==> 2 <= name <= i)
    ensures depth == 1 ==>
              Left(row, t, i, 1, name) == Then(ReplaceByCell(row, t[name..i]), Left(row, t, i + 1, 0, name))
    ensures depth != 1 ==>
              Left(row, t, i, depth, name) == Left(row, t, i + 1, if depth == 0 then 0 else depth - 1, name)
  {
    hide ReplaceByCell, CloseAt, Inside;
    if depth == 0 {
      assert t[i..][0] == CLOSE && t[i..][1..] == t[i + 1..];
    } else {
      hide Stage2;
      var u, j := t[name - 2..], i - (name - 2);
      assert u[j] == CLOSE;
      InsideClose(u, j, depth, [DOLLAR]);
      assert u[2..j] == t[name..i] && u[j + 1..] == t[i + 1..];
      WriteNothing(Then(ReplaceByCell(row, t[name..i]), Stage2(row, t[i + 1..])));
    }
  }

  lemma AtOther(row: Row, t: seq<byte>, i: nat, depth: nat, name: nat)
    requires row.Valid() && i < |t| && !IsPair(t, i) && !IsOpen(t, i) && t[i] != CLOSE
    requires depth > 0 ==> 2 <= name <= i
    ensures Left(row, t, i, depth, name) == Write(if depth == 0 then [t[i]] else [], Left(row, t, i + 1, depth, name))
  {
    hide ReplaceByCell, CloseAt, Inside;
    if depth == 0 {
      assert t[i..][0] == t[i] && t[i..][1..] == t[i + 1..];
    } else {
      hide Stage2;
      var u, j := t[name - 2..], i - (name - 2);
      assert u[j] == t[i] && !IsPair(u, j) && !IsOpen(u, j);
      InsideOther(u, j, depth, [DOLLAR]);
      WriteNothing(Left(row, t, i + 1, depth, name));
    }
  }

  lemma AtEnd(row: Row, t: seq<byte>, depth: nat, name: nat)
    requires row.Valid() && (depth > 0 ==> 2 <= name <= |t|)
    ensures Left(row, t, |t|, depth, name) == ([], true)
  {
    hide ReplaceByCell;
    WriteNothing(([], true));
  }

  lemma AtStart(row: Row, t: seq<byte>)
    requires row.Valid()
    ensures Left(row, t, 0, 0, 0) == Stage2(row, t)
  {
    assert t[0..] == t;
  }

  lemma ThenWrite(a: Out, text: seq<byte>, rest: Out)
    ensures Then(a, Write(text, rest)) == Then((a.0 + text, a.1), rest)
  {
    assert a.0 + (text + rest.0) == (a.0 + text) + rest.0;
  }

  lemma ThenNothing(a: Out)
    ensures Then(([], true), a) == a && Then(a, ([], true)) == a
  {
    assert [] + a.0 == a.0 && a.0 + [] == a.0;
  }

  lemma ThenThen(a: Out, b: Out, c: Out)
    ensures Then(a, Then(b, c)) == Then(Then(a, b), c)
  {
    assert a.0 + (b.0 + c.0) == (a.0 + b.0) + c.0;
  }

  /** sofar is written, and what is left at i completes it to whole. */
  ghost predicate Reached(row: Row, t: seq<byte>, i: nat, depth: nat, name: nat, sofar: Out, whole: Out)
    requires row.Valid()
  {
    i <= |t| && (depth > 0 ==> 2 <= name <= i) && Then(sofar, Left(row, t, i, depth, name)) == whole
  }

  lemma PairStep(row: Row, t: seq<byte>, i: nat, depth: nat, name: nat, sofar: Out, whole: Out)
    requires row.Valid() && Reached(row, t, i, depth, name, sofar, whole) && IsPair(t, i)
    ensures Reached(row, t, i + 2, depth, name, (sofar.0 + [DOLLAR], sofar.1), whole)
    ensures |sofar.0| + 1 <= |whole.0|
  {
    hide Left;
    AtPair(row, t, i, depth, name);
    ThenWrite(sofar, [DOLLAR], Left(row, t, i + 2, depth, name));
  }

  lemma OpenStep(row: Row, t: seq<byte>, i: nat, depth: nat, name: nat, sofar: Out, whole: Out)
    requires row.Valid() && Reached(row, t, i, depth, name, sofar, whole) && IsOpen(t, i)
    ensures Reached(row, t, i + 2, depth + 1, if depth == 0 then i + 2 else name, sofar, whole)
  {
    hide Left;
    AtOpen(row, t, i, depth, name);
  }

  lemma CloseStep(row: Row, t: seq<byte>, i: nat, depth: nat, name: nat, sofar: Out, whole: Out)
    requires row.Valid() && Reached(row, t, i, depth, name, sofar, whole) && i < |t| && t[i] == CLOSE
    ensures depth == 1 ==>
              var cell := ReplaceByCell(row, t[name..i]);
              && Reached(row, t, i + 1, 0, name, Then(sofar, cell), whole) && |sofar.0| + |cell.0| <= |whole.0|
    ensures depth != 1 ==> Reached(row, t, i + 1, if depth == 0 then 0 else depth - 1, name, sofar, whole)
  {
    hide Left, ReplaceByCell;
    AtClose(row, t, i, depth, name);
    if depth == 1 {
      ThenThen(sofar, ReplaceByCell(row, t[name..i]), Left(row, t, i + 1, 0, name));
    }
  }

  lemma OtherStep(row: Row, t: seq<byte>, i: nat, depth: nat, name: nat, sofar: Out, whole: Out)
    requires row.Valid() && Reached(row, t, i, depth, name, sofar, whole)
    requires i < |t| && !IsPair(t, i) && !IsOpen(t, i) && t[i] != CLOSE
    ensures depth == 0 ==> Reached(row, t, i + 1, 0, name, (sofar.0 + [t[i]], sofar.1), whole)
    ensures depth == 0 ==> |sofar.0| + 1 <= |whole.0|
    ensures depth > 0 ==> Reached(row, t, i + 1, depth, name, sofar, whole)
  {
    hide Left;
    AtOther(row, t, i, depth, name);
    ThenWrite(sofar, if depth == 0 then [t[i]] else [], Left(row, t, i + 1, depth, name));
    assert sofar.0 + [] == sofar.0;
  }

  lemma StartReached(row: Row, t: seq<byte>)
    requires row.Valid()
    ensures Reached(row, t, 0, 0, 0, ([], true), Stage2(row, t))
  {
    AtStart(row, t);
    ThenNothing(Stage2(row, t));
  }

  lemma EndReached(row: Row, t: seq<byte>, depth: nat, name: nat, sofar: Out, whole: Out)
    requires row.Valid() && Reached(row, t, |t|, depth, name, sofar, whole)
    ensures sofar == whole
  {
    hide Left;
    AtEnd(row, t, depth, name);
    ThenNothing(sofar);
  }

  /** Row y of the sheet. */
  ghost function RowOf(sheet: Sheet, y: nat): (row: Row)
    requires sheet.Valid() && y < sheet.height
    ensures row.Valid()
    ensures row.names == sheet.labelTexts
    ensures forall x :: 0 <= x < sheet.width ==> row.cells[x] == sheet.Value(x, y)
    reads sheet, sheet.labels, sheet.values, sheet.content, sheet.content.memory
  {
    RowFits(y, sheet.width, sheet.height);
    var from := y * sheet.width;
    Row(sheet.labelTexts, sheet.valueTexts[from..from + sheet.width])
  }

  lemma RowFits(y: nat, width: nat, height: nat)
    requires y < height
    ensures y * width + width <= width * height
  {
    assert (y + 1) * width <= height * width;
  }

  /** The cell under a name, if there is one. */
  method WriteCell(buffer: GrowableBuffer, sheet: Sheet, y: nat, name: seq<byte>, ghost row: Row) returns (found: bool)
    requires buffer.Valid() && sheet.Valid() && y < sheet.height && 0 !in name
    requires row == RowOf(sheet, y)
    requires buffer != sheet.content && buffer.memory != sheet.content.memory
    requires buffer.used + |ReplaceByCell(row, name).0| < SIZE_LIMIT
    modifies buffer, buffer.memory
    ensures buffer.Valid()
    ensures buffer.Content() == old(buffer.Content()) + ReplaceByCell(row, name).0
    ensures found == ReplaceByCell(row, name).1
    ensures buffer.memory == old(buffer.memory) || fresh(buffer.memory)
  {
    hide RowOf;
    var x := sheet.FindLabel(name);
    found := x >= 0;
    if found {
      var value := CellString(sheet, x, y);
      buffer.Write(value);
    }
  }

  method CellString(sheet: Sheet, x: nat, y: nat) returns (value: seq<byte>)
    requires sheet.Valid() && x < sheet.width && y < sheet.height
    ensures value == sheet.Value(x, y)
  {
    var replacement := sheet.GetValue(x, y);
    ghost var text := sheet.Value(x, y);
    ContentInMemory(sheet.content, replacement.offset, text);
    var len := StringLen(replacement.base, replacement.offset, text);
    value := replacement.base[replacement.offset..replacement.offset + len];
  }

  lemma TextAt(memory: seq<byte>, at: nat, t: seq<byte>, i: nat)
    requires StringAt(memory, at, t) && i <= |t|
    ensures at + i < |memory| && memory[at + i] == if i < |t| then t[i] else 0
  {
    assert i < |t| ==> memory[at..at + |t|][i] == t[i];
  }

  lemma SubstringAt(memory: seq<byte>, cut: seq<byte>, at: nat, t: seq<byte>, from: nat, to: nat)
    requires StringAt(memory, at, t) && from <= to < |t| && cut == memory[at + to := 0]
    ensures StringAt(cut, at + from, t[from..to])
  {
    forall k | 0 <= k < to - from ensures cut[at + from..at + to][k] == t[from..to][k] {
      assert t[from + k] == memory[at..at + |t|][from + k] == memory[at + from + k];
    }
  }

  /** The name of a placeholder, cut off by a NUL for as long as it is looked at. */
  method CutName(memory: array<byte>, at: nat, ghost t: seq<byte>, from: nat, to: nat) returns (name: seq<byte>)
    requires StringAt(memory[..], at, t) && from <= to < |t| && t[to] == CLOSE
    modifies memory
    ensures memory[..] == old(memory[..])
    ensures name == t[from..to]
  {
    ghost var before := memory[..];
    TextAt(before, at, t, to);
    memory[at + to] := 0;
    SubstringAt(before, memory[..], at, t, from, to);
    var len := StringLen(memory, at + from, t[from..to]);
    name := memory[at + from..at + from + len];
    memory[at + to] := CLOSE;
    assert memory[..] == before;
  }

  ghost predicate Apart(memory: array<byte>, buffer: GrowableBuffer, sheet: Sheet)
    reads buffer, sheet, sheet.content
  {
    && memory != buffer.memory && memory != sheet.content.memory
    && buffer != sheet.content && buffer.memory != sheet.content.memory
  }

  method WriteNamedCell(memory: array<byte>, at: nat, ghost t: seq<byte>, from: nat, to: nat, sheet: Sheet, y: nat,
                        buffer: GrowableBuffer, ghost row: Row) returns (found: bool)
    requires StringAt(memory[..], at, t) && from <= to < |t| && t[to] == CLOSE
    requires sheet.Valid() && y < sheet.height && row == RowOf(sheet, y)
    requires buffer.Valid() && Apart(memory, buffer, sheet)
    requires buffer.used + |ReplaceByCell(row, t[from..to]).0| < SIZE_LIMIT
    modifies memory, buffer, buffer.memory
    ensures memory[..] == old(memory[..])
    ensures buffer.Valid()
    ensures buffer.Content() == old(buffer.Content()) + ReplaceByCell(row, t[from..to]).0
    ensures found == ReplaceByCell(row, t[from..to]).1
    ensures buffer.memory == old(buffer.memory) || fresh(buffer.memory)
  {
    hide RowOf, ReplaceByCell;
    var name := CutName(memory, at, t, from, to);
    found := WriteCell(buffer, sheet, y, name, row);
  }

  /** One text and one row. The template text is left as it was. */
  method FormatIssue(memory: array<byte>, at: nat, ghost t: seq<byte>, sheet: Sheet, y: nat,
                     buffer: GrowableBuffer, ghost row: Row) returns (success: bool)
    requires StringAt(memory[..], at, t) && sheet.Valid() && y < sheet.height && row == RowOf(sheet, y)
    requires buffer.Valid() && buffer.Content() == [] && Apart(memory, buffer, sheet)
    requires |Stage2(row, t).0| < SIZE_LIMIT
    modifies memory, buffer, buffer.memory
    ensures memory[..] == old(memory[..])
    ensures buffer.Valid() && (buffer.Content(), success) == Stage2(row, t)
    ensures buffer.memory == old(buffer.memory) || fresh(buffer.memory)
  {
    hide Reached, RowOf, Stage2, ReplaceByCell;
    hide GrowableBuffer.Sized, Sheet.Valid;
    assert 0 !in t;
    hide StringAt;
    success := true;
    var depth: nat, name: nat, i: nat := 0, 0, 0;
    StartReached(row, t);
    TextAt(memory[..], at, t, 0);
    while memory[at + i] != 0
      invariant i <= |t| && at + i < memory.Length && (depth > 0 ==> 2 <= name <= i)
      invariant memory[..] == old(memory[..]) && memory[at + i] == if i < |t| then t[i] else 0
      invariant buffer.Valid() && (buffer.memory == old(buffer.memory) || fresh(buffer.memory))
      invariant Reached(row, t, i, depth, name, (buffer.Content(), success), Stage2(row, t))
      decreases |t| - i
    {
      ghost var sofar := (buffer.Content(), success);
      TextAt(memory[..], at, t, i + 1);
      if memory[at + i] == DOLLAR && memory[at + i + 1] == DOLLAR {
        PairStep(row, t, i, depth, name, sofar, Stage2(row, t));
        buffer.Write([DOLLAR]);
        i := i + 1;
      } else if memory[at + i] == DOLLAR && memory[at + i + 1] == OPEN {
        OpenStep(row, t, i, depth, name, sofar, Stage2(row, t));
        if depth == 0 {
          name := i + 2;
        }
        depth := depth + 1;
        i := i + 1;
      } else if memory[at + i] == CLOSE {
        CloseStep(row, t, i, depth, name, sofar, Stage2(row, t));
        if depth == 1 {
          var found := WriteNamedCell(memory, at, t, name, i, sheet, y, buffer, row);
          if !found {
            success := false;
          }
        }
        depth := if depth == 0 then 0 else depth - 1;
      } else {
        OtherStep(row, t, i, depth, name, sofar, Stage2(row, t));
        if depth == 0 {
          buffer.Write([memory[at + i]]);
        }
      }
      i := i + 1;
      TextAt(memory[..], at, t, i);
    }
    EndReached(row, t, depth, name, (buffer.Content(), success), Stage2(row, t));
  }

  // --- all rows ---

  lemma {:induction false} Stage2HasNoNul(row: Row, t: seq<byte>)
    requires row.Valid() && 0 !in t && forall x :: 0 <= x < |row.cells| ==> 0 !in row.cells[x]
    ensures 0 !in Stage2(row, t).0
    decreases |t|
  {
    hide CloseAt, Inside;
    if t == [] {
    } else if IsPair(t, 0) {
      Stage2HasNoNul(row, t[2..]);
    } else if IsOpen(t, 0) {
      var c := CloseAt(t, 2, 1);
      InsideHasNoNul(t, 2, 1);
      if c < |t| {
        Stage2HasNoNul(row, t[c + 1..]);
      }
    } else {
      Stage2HasNoNul(row, t[1..]);
    }
  }

  lemma {:induction false} InsideHasNoNul(t: seq<byte>, i: nat, depth: nat)
    requires i <= |t| && depth > 0
    ensures 0 !in Inside(t, i, depth, [DOLLAR])
    decreases |t| - i
  {
    if i == |t| {
    } else if IsPair(t, i) {
      InsideHasNoNul(t, i + 2, depth);
    } else if IsOpen(t, i) {
      InsideHasNoNul(t, i + 2, depth + 1);
    } else if t[i] == CLOSE {
      if depth > 1 {
        InsideHasNoNul(t, i + 1, depth - 1);
      }
    } else {
      InsideHasNoNul(t, i + 1, depth);
    }
  }

  /** The text for each row, and whether every name was found in all of them. */
  function Issues(rows: seq<Row>, texts: seq<seq<byte>>): (issues: seq<seq<byte>>)
    requires |rows| == |texts| && forall y :: 0 <= y < |rows| ==> rows[y].Valid()
    ensures |issues| == |rows|
    ensures forall y :: 0 <= y < |rows| ==> issues[y] == Stage2(rows[y], texts[y]).0
  {
    seq(|rows|, (y: nat) => if y < |rows| then Stage2(rows[y], texts[y]).0 else [])
  }

  ghost predicate AllFound(rows: seq<Row>, texts: seq<seq<byte>>, n: nat)
    requires n <= |rows| == |texts| && forall y :: 0 <= y < |rows| ==> rows[y].Valid()
  {
    forall y :: 0 <= y < n ==> Stage2(rows[y], texts[y]).1
  }

  ghost predicate AreRows(sheet: Sheet, rows: seq<Row>)
    requires sheet.Valid()
    reads sheet, sheet.labels, sheet.values, sheet.content, sheet.content.memory
  {
    |rows| == sheet.height && forall y :: 0 <= y < |rows| ==> rows[y] == RowOf(sheet, y)
  }

  /** One turn of the loop: the buffer is reused, its content appended. */
  method FormatRow(memory: array<byte>, at: nat, ghost t: seq<byte>, sheet: Sheet, y: nat,
                   buffer: GrowableBuffer, issues: StringArray, ghost row: Row) returns (found: bool)
    requires StringAt(memory[..], at, t) && sheet.Valid() && y < sheet.height && row == RowOf(sheet, y)
    requires buffer.Valid() && issues.Valid() && Apart(memory, buffer, sheet)
    requires buffer != issues.buffer && buffer.memory != issues.buffer.memory && memory != issues.buffer.memory
    requires 0 !in Stage2(row, t).0
    requires issues.buffer.used + |Stage2(row, t).0| + 1 < SIZE_LIMIT && issues.count + 1 < 0x4000_0000
    modifies memory, buffer, buffer.memory, issues, issues.elem, issues.buffer, issues.buffer.memory
    ensures memory[..] == old(memory[..])
    ensures buffer.Valid() && (buffer.memory == old(buffer.memory) || fresh(buffer.memory))
    ensures issues.Valid() && issues.strings == old(issues.strings) + [Stage2(row, t).0]
    ensures issues.elem == old(issues.elem) || fresh(issues.elem)
    ensures issues.buffer.memory == old(issues.buffer.memory) || fresh(issues.buffer.memory)
    ensures buffer.memory != issues.buffer.memory
    ensures issues.buffer.used == old(issues.buffer.used) + |Stage2(row, t).0| + 1
    ensures found == Stage2(row, t).1
  {
    hide Stage2, RowOf;
    buffer.Clear();
    found := FormatIssue(memory, at, t, sheet, y, buffer, row);
    issues.Append(buffer.memory[..buffer.used]);
  }

  /** One issue text per row; null when a name was missing in any of them. */
  method FormatFeedbackIssues(format: StringArray, sheet: Sheet, ghost rows: seq<Row>) returns (issues: StringArray?)
    requires format.Valid() && sheet.Valid() && format.count == sheet.height < 0x3FFF_FFFF && AreRows(sheet, rows)
    requires format.buffer.memory != sheet.content.memory
    requires |Packed(Issues(rows, format.strings))| < SIZE_LIMIT
    modifies format.buffer.memory
    ensures format.buffer.memory[..] == old(format.buffer.memory[..])
    ensures issues == null <==> !AllFound(rows, format.strings, |rows|)
    ensures issues != null ==> issues.Valid() && issues.strings == Issues(rows, format.strings)
  {
    hide Stage2, RowOf, Packed, Issues, CString, AllFound;
    hide GrowableBuffer.Sized;
    var success := true;
    issues := new StringArray();
    var buffer := new GrowableBuffer();
    var memory := format.buffer.memory;
    ghost var texts := Issues(rows, format.strings);
    NothingPacked(texts);
    NothingFound(rows, format.strings);
    ghost var template := memory[..];
    forall y | 0 <= y < format.count
      ensures format.elem[y].Ptr? && StringAt(template, format.elem[y].offset, format.strings[y])
    {
      TextOfElement(format, y);
    }
    for y := 0 to sheet.height
      invariant memory[..] == template
      invariant fresh(issues) && fresh(issues.elem) && fresh(issues.buffer) && fresh(issues.buffer.memory)
      invariant fresh(buffer) && fresh(buffer.memory) && buffer != issues.buffer
      invariant buffer.memory != issues.buffer.memory
      invariant buffer.Valid() && issues.Valid()
      invariant issues.strings == texts[..y] && issues.buffer.used == |Packed(texts[..y])|
      invariant success <==> AllFound(rows, format.strings, y)
    {
      PackedStep(texts, y);
      AllFoundStep(rows, format.strings, y);
      IssueHasNoNul(sheet, y, rows[y], format.strings[y]);
      var found := FormatRow(memory, format.elem[y].offset, format.strings[y], sheet, y, buffer, issues, rows[y]);
      success := success && found;
    }
    assert texts[..sheet.height] == texts;
    if !success {
      issues := null;
    }
  }

  lemma PackedStep(texts: seq<seq<byte>>, y: nat)
    requires y < |texts|
    ensures |Packed(texts[..y + 1])| == |Packed(texts[..y])| + |texts[y]| + 1 <= |Packed(texts)|
    ensures texts[..y + 1] == texts[..y] + [texts[y]]
  {
    RowStep([], texts, y);
  }

  lemma TextOfElement(format: StringArray, y: nat)
    requires format.Valid() && y < format.count
    ensures format.elem[y].Ptr? && StringAt(format.buffer.memory[..], format.elem[y].offset, format.strings[y])
  {
    ContentInMemory(format.buffer, format.elem[y].offset, format.strings[y]);
  }

  lemma AllFoundStep(rows: seq<Row>, texts: seq<seq<byte>>, n: nat)
    requires n < |rows| == |texts| && forall y :: 0 <= y < |rows| ==> rows[y].Valid()
    ensures AllFound(rows, texts, n + 1) <==> AllFound(rows, texts, n) && Stage2(rows[n], texts[n]).1
  {
    hide Stage2;
  }

  lemma NothingFound(rows: seq<Row>, texts: seq<seq<byte>>)
    requires |rows| == |texts| && forall y :: 0 <= y < |rows| ==> rows[y].Valid()
    ensures AllFound(rows, texts, 0)
  {
  }

  lemma IssueHasNoNul(sheet: Sheet, y: nat, row: Row, t: seq<byte>)
    requires sheet.Valid() && y < sheet.height && row == RowOf(sheet, y) && 0 !in t
    ensures 0 !in Stage2(row, t).0
  {
    hide Stage2;
    forall x | 0 <= x < |row.cells| ensures 0 !in row.cells[x] {
      IndexInGrid(x, y, sheet.width, sheet.height);
      assert PointsTo(sheet.content, sheet.values[y * sheet.width + x], sheet.valueTexts[y * sheet.width + x]);
    }
    Stage2HasNoNul(row, t);
  }
}
