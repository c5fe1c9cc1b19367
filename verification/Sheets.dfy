/** The homework sheet (code/hand_curl.c, retrieve_sheet; code/hand_buffer.c): ragged rows of cells
    are packed into one buffer of NUL-separated strings and read back through pointers. */
module Sheets {
  import opened Bytes
  import opened GrowableBuffers
  import opened StringArrays

  /** A JSON cell: a string, or anything else. */
  datatype Cell = Text(text: seq<byte>) | Other

  ghost predicate Readable(rows: seq<seq<Cell>>) {
    forall r, x :: 0 <= r < |rows| && 0 <= x < |rows[r]| && rows[r][x].Text? ==> 0 !in rows[r][x].text
  }

  /** What the sheet shows at column x of a row: nothing where the row is too short. */
  function CellText(row: seq<Cell>, x: nat): seq<byte> {
    if x < |row| && row[x].Text? then row[x].text else []
  }

  function RowTexts(row: seq<Cell>, width: nat): (texts: seq<seq<byte>>)
    ensures |texts| == width && forall x :: 0 <= x < width ==> texts[x] == CellText(row, x)
  {
    seq(width, (x: nat) => CellText(row, x))
  }

  function Texts(rows: seq<seq<Cell>>, width: nat): (texts: seq<seq<byte>>)
    ensures |texts| == |rows| * width
  {
    if rows == [] then []
    else
      assert |rows| * width == (|rows| - 1) * width + width;
      Texts(rows[..|rows| - 1], width) + RowTexts(rows[|rows| - 1], width)
  }

  function Width(rows: seq<seq<Cell>>): (w: nat)
    ensures forall r :: 0 <= r < |rows| ==> |rows[r]| <= w
  {
    if rows == [] then 0
    else
      var w := Width(rows[..|rows| - 1]);
      if |rows[|rows| - 1]| > w then |rows[|rows| - 1]| else w
  }

  /** The width is the length of the longest row. */
  lemma {:induction false} WidthIsLongest(rows: seq<seq<Cell>>)
    ensures forall r :: 0 <= r < |rows| ==> |rows[r]| <= Width(rows)
    ensures Width(rows) > 0 ==> exists r :: 0 <= r < |rows| && |rows[r]| == Width(rows)
  {
    if rows != [] {
      var front := rows[..|rows| - 1];
      WidthIsLongest(front);
      if Width(rows) == Width(front) && Width(front) > 0 {
        var r :| 0 <= r < |front| && |front[r]| == Width(front);
        assert |rows[r]| == Width(rows);
      }
    }
  }

  lemma {:induction false} TextsAt(rows: seq<seq<Cell>>, width: nat, r: nat, x: nat)
    requires r < |rows| && x < width
    ensures r * width + x < |rows| * width
    ensures Texts(rows, width)[r * width + x] == CellText(rows[r], x)
  {
    var last := |rows| - 1;
    assert |rows| * width == last * width + width;
    if r < last {
      TextsAt(rows[..last], width, r, x);
    } else {
      assert r == last;
    }
  }

  // --- strings packed one after the other ---

  function Packed(texts: seq<seq<byte>>): seq<byte> {
    if texts == [] then [] else Packed(texts[..|texts| - 1]) + texts[|texts| - 1] + [0]
  }

  lemma PackedPush(texts: seq<seq<byte>>, text: seq<byte>)
    ensures Packed(texts + [text]) == Packed(texts) + text + [0]
  {
    assert (texts + [text])[..|texts|] == texts;
  }

  lemma {:induction false} PackedPrefix(texts: seq<seq<byte>>, i: nat)
    requires i <= |texts|
    ensures Packed(texts[..i]) <= Packed(texts)
    decreases |texts|
  {
    if i == |texts| {
      assert texts[..i] == texts;
    } else {
      assert texts[..|texts| - 1][..i] == texts[..i];
      PackedPrefix(texts[..|texts| - 1], i);
    }
  }

  /** The i-th string stands where the strings before it end. */
  lemma PackedStringAt(texts: seq<seq<byte>>, i: nat)
    requires i < |texts| && 0 !in texts[i]
    ensures StringAt(Packed(texts), |Packed(texts[..i])|, texts[i])
    ensures |Packed(texts[..i + 1])| == |Packed(texts[..i])| + |texts[i]| + 1
  {
    var before, through := Packed(texts[..i]), Packed(texts[..i + 1]);
    assert texts[..i + 1] == texts[..i] + [texts[i]];
    PackedPush(texts[..i], texts[i]);
    PackedPrefix(texts, i + 1);
    var all := Packed(texts);
    assert all == through + all[|through|..];
    assert through == before + (texts[i] + [0]);
    StringAtEnd(before, texts[i]);
    StringAtAppend(through, all[|through|..], |before|, texts[i]);
  }

  lemma {:induction false} TextsHaveNoNul(rows: seq<seq<Cell>>, width: nat)
    requires Readable(rows)
    ensures forall i :: 0 <= i < |Texts(rows, width)| ==> 0 !in Texts(rows, width)[i]
  {
    if rows != [] {
      TextsHaveNoNul(rows[..|rows| - 1], width);
    }
  }

  ghost predicate PointsTo(content: GrowableBuffer, p: Ptr, text: seq<byte>)
    reads content, content.memory
  {
    content.Valid() && p.Ptr? && p.base == content.memory && StringAt(content.Content(), p.offset, text)
  }

  class Sheet {
    const width: nat
    const height: nat
    const labels: array<Ptr>
    const values: array<Ptr>
    const content: GrowableBuffer

    /** The label row and the other rows, as shown. */
    ghost var labelTexts: seq<seq<byte>>
    ghost var valueTexts: seq<seq<byte>>

    ghost predicate Valid()
      reads this, labels, values, content, content.memory
    {
      && content.Valid()
      && labels.Length == |labelTexts| == width
      && values.Length == |valueTexts| == width * height
      && (forall i :: 0 <= i < width ==> PointsTo(content, labels[i], labelTexts[i]))
      && (forall i :: 0 <= i < values.Length ==> PointsTo(content, values[i], valueTexts[i]))
    }

    /** allocate_sheet */
    constructor (width: nat, height: nat)
      ensures this.width == width && this.height == height
      ensures labels.Length == width && values.Length == width * height
      ensures content.Valid() && content.Content() == [] && labelTexts == valueTexts == []
      ensures fresh(labels) && fresh(values) && fresh(content) && fresh(content.memory) && labels != values
      ensures (forall i :: 0 <= i < labels.Length ==> labels[i] == Null)
      ensures (forall i :: 0 <= i < values.Length ==> values[i] == Null)
    {
      this.width, this.height := width, height;
      labels := new Ptr[width](_ => Null);
      values := new Ptr[width * height](_ => Null);
      content := new GrowableBuffer();
      labelTexts, valueTexts := [], [];
    }

    /** The pointers, once the content is complete and does not move any more. */
    method Point(ghost texts: seq<seq<byte>>)
      requires content.Valid() && content.Content() == Packed(texts)
      requires forall i :: 0 <= i < |texts| ==> 0 !in texts[i]
      requires labels.Length == width && values.Length == width * height && labels != values
      requires |texts| == width + values.Length
      modifies this, labels, values
      ensures Valid() && labelTexts + valueTexts == texts
    {
      hide PointsTo, Packed, StringAt, GrowableBuffer.Sized, Valid;
      labelTexts := texts[..width];
      valueTexts := texts[width..];
      TakeDrop(texts, width);
      NothingPacked(texts);
      var at := WalkStrings(labels, content, 0, texts, 0);
      PointersToPart(content, labels, texts, 0, labelTexts);
      at := WalkStrings(values, content, at, texts, width);
      PointersToPart(content, values, texts, width, valueTexts);
      PointedIsValid(this);
    }

    /** find_label: the first column with that label, or -1. */
    method FindLabel(name: seq<byte>) returns (x: int)
      requires Valid() && 0 !in name
      ensures x == LabelIndex(labelTexts, name)
    {
      LabelIndexFirst(labelTexts, name);
      for i := 0 to width
        invariant forall k :: 0 <= k < i ==> labelTexts[k] != name
      {
        ContentInMemory(content, labels[i].offset, labelTexts[i]);
        var equal := CompareString(content.memory, labels[i].offset, labelTexts[i], name);
        if equal {
          return i;
        }
      }
      return -1;
    }

    ghost function Value(x: nat, y: nat): seq<byte>
      requires Valid() && x < width && y < height
      reads this, labels, values, content, content.memory
    {
      IndexInGrid(x, y, width, height);
      valueTexts[y * width + x]
    }

    /** The first row as labels, the others as values; empty strings where a row is too short or a cell is no
        string. */
    ghost predicate Shows(rows: seq<seq<Cell>>)
      requires Valid()
      reads this, labels, values, content, content.memory
    {
      && (width > 0 ==> |rows| == height + 1)
      && (forall x :: 0 <= x < width ==>
            labelTexts[x] == if x < |rows[0]| && rows[0][x].Text? then rows[0][x].text else [])
      && (forall x, y :: 0 <= x < width && 0 <= y < height ==>
            Value(x, y) == if x < |rows[y + 1]| && rows[y + 1][x].Text? then rows[y + 1][x].text else [])
    }

    /** get_value; outside of the grid its assertion fails, and without assertions it gives null. */
    method GetValue(x: nat, y: nat) returns (value: Ptr)
      requires Valid()
      ensures if x < width && y < height then PointsTo(content, value, Value(x, y)) else value == Null
    {
      value := Null;
      if x < width && y < height {
        IndexInGrid(x, y, width, height);
        value := values[y * width + x];
      }
    }
  }

  lemma PointedIsValid(sheet: Sheet)
    requires sheet.content.Valid() && sheet.labels.Length == |sheet.labelTexts| == sheet.width
    requires sheet.values.Length == |sheet.valueTexts| == sheet.width * sheet.height
    requires forall i :: 0 <= i < sheet.labels.Length ==> PointsTo(sheet.content, sheet.labels[i], sheet.labelTexts[i])
    requires forall i :: 0 <= i < sheet.values.Length ==> PointsTo(sheet.content, sheet.values[i], sheet.valueTexts[i])
    ensures sheet.Valid()
  {
    hide PointsTo;
  }

  lemma IndexInGrid(x: nat, y: nat, width: nat, height: nat)
    requires x < width && y < height
    ensures y * width + x < width * height
  {
    assert (y + 1) * width <= height * width;
  }

  lemma ContentInMemory(buffer: GrowableBuffer, offset: nat, text: seq<byte>)
    requires buffer.Valid() && StringAt(buffer.Content(), offset, text)
    ensures StringAt(buffer.memory[..], offset, text)
  {
    var content, all := buffer.Content(), buffer.memory[..];
    assert all == content + all[|content|..];
    StringAtAppend(content, all[|content|..], offset, text);
  }

  function LabelIndex(labels: seq<seq<byte>>, name: seq<byte>): (x: int)
    ensures -1 <= x < |labels|
  {
    if labels == [] then -1
    else if labels[0] == name then 0
    else
      var x := LabelIndex(labels[1..], name);
      if x < 0 then -1 else x + 1
  }

  lemma {:induction false} LabelIndexFirst(labels: seq<seq<byte>>, name: seq<byte>)
    ensures var x := LabelIndex(labels, name);
            if x < 0 then name !in labels
            else labels[x] == name && forall k :: 0 <= k < x ==> labels[k] != name
  {
    if labels != [] && labels[0] != name {
      LabelIndexFirst(labels[1..], name);
      assert forall k :: 1 <= k < |labels| ==> labels[k] == labels[1..][k - 1];
    }
  }

  // --- retrieve_sheet ---

  method WriteCell(content: GrowableBuffer, cell: Cell)
    requires content.Valid() && content.used + |CellText([cell], 0)| + 1 < SIZE_LIMIT
    modifies content, content.memory
    ensures content.Valid() && content.Content() == old(content.Content()) + CellText([cell], 0) + [0]
    ensures content.memory == old(content.memory) || fresh(content.memory)
  {
    if cell.Text? {
      content.Write(cell.text);
    }
    content.Write([0]);
  }

  method WriteCells(content: GrowableBuffer, row: seq<Cell>, ghost texts: seq<seq<byte>>)
    requires content.Valid() && |row| <= |texts|
    requires forall x :: 0 <= x < |row| ==> texts[x] == CellText(row, x)
    requires content.used + |Packed(texts)| < SIZE_LIMIT
    modifies content, content.memory
    ensures content.Valid() && content.Content() == old(content.Content()) + Packed(texts[..|row|])
    ensures content.memory == old(content.memory) || fresh(content.memory)
  {
    ghost var before := content.Content();
    for x := 0 to |row|
      invariant content.Valid() && content.Content() == before + Packed(texts[..x])
      invariant content.memory == old(content.memory) || fresh(content.memory)
    {
      RowStep(before, texts, x);
      WriteCell(content, row[x]);
    }
  }

  /** An empty string for each missing cell. */
  method PadRow(content: GrowableBuffer, from: nat, width: nat, ghost before: seq<byte>, ghost texts: seq<seq<byte>>)
    requires content.Valid() && from <= width == |texts|
    requires forall x :: from <= x < width ==> texts[x] == []
    requires content.Content() == before + Packed(texts[..from]) && |before| + |Packed(texts)| < SIZE_LIMIT
    modifies content, content.memory
    ensures content.Valid() && content.Content() == before + Packed(texts)
    ensures content.memory == old(content.memory) || fresh(content.memory)
  {
    for x := from to width
      invariant content.Valid() && content.Content() == before + Packed(texts[..x])
      invariant content.memory == old(content.memory) || fresh(content.memory)
    {
      RowStep(before, texts, x);
      content.Write([0]);
    }
    assert texts[..width] == texts;
  }

  lemma RowStep(before: seq<byte>, texts: seq<seq<byte>>, x: nat)
    requires x < |texts|
    ensures before + Packed(texts[..x + 1]) == before + Packed(texts[..x]) + texts[x] + [0]
    ensures |Packed(texts[..x])| + |texts[x]| + 1 <= |Packed(texts)|
  {
    assert texts[..x + 1] == texts[..x] + [texts[x]];
    PackedPush(texts[..x], texts[x]);
    PackedPrefix(texts, x + 1);
  }

  lemma {:induction false} PackedConcat(a: seq<seq<byte>>, b: seq<seq<byte>>)
    ensures Packed(a + b) == Packed(a) + Packed(b)
  {
    if b == [] {
      assert a + b == a;
    } else {
      var b' := b[..|b| - 1];
      assert a + b == (a + b') + [b[|b| - 1]];
      PackedConcat(a, b');
      PackedPush(a + b', b[|b| - 1]);
    }
  }

  lemma {:induction false} PackedRowsPrefix(rows: seq<seq<Cell>>, width: nat, r: nat)
    requires r <= |rows|
    ensures |Packed(Texts(rows[..r], width))| <= |Packed(Texts(rows, width))|
    decreases |rows|
  {
    if r == |rows| {
      assert rows[..r] == rows;
    } else {
      var last := |rows| - 1;
      assert rows[..last][..r] == rows[..r];
      PackedRowsPrefix(rows[..last], width, r);
      PackedConcat(Texts(rows[..last], width), RowTexts(rows[last], width));
    }
  }

  method WriteRows(content: GrowableBuffer, rows: seq<seq<Cell>>, width: nat)
    requires content.Valid() && content.Content() == []
    requires forall r :: 0 <= r < |rows| ==> |rows[r]| <= width
    requires |Packed(Texts(rows, width))| < SIZE_LIMIT
    modifies content, content.memory
    ensures content.Valid() && content.Content() == Packed(Texts(rows, width))
    ensures content.memory == old(content.memory) || fresh(content.memory)
  {
    for r := 0 to |rows|
      invariant content.Valid() && content.Content() == Packed(Texts(rows[..r], width))
      invariant content.memory == old(content.memory) || fresh(content.memory)
    {
      assert rows[..r + 1][..r] == rows[..r];
      PackedConcat(Texts(rows[..r], width), RowTexts(rows[r], width));
      PackedRowsPrefix(rows, width, r + 1);
      ghost var before, texts := content.Content(), RowTexts(rows[r], width);
      WriteCells(content, rows[r], texts);
      PadRow(content, |rows[r]|, width, before, texts);
    }
    assert rows[..|rows|] == rows;
  }

  /** Pointers to consecutive strings, from the i-th of texts on. */
  method WalkStrings(pointers: array<Ptr>, content: GrowableBuffer, at: nat, ghost texts: seq<seq<byte>>,
                     ghost first: nat) returns (after: nat)
    requires content.Valid() && content.Content() == Packed(texts)
    requires forall i :: 0 <= i < |texts| ==> 0 !in texts[i]
    requires first + pointers.Length <= |texts| && at == |Packed(texts[..first])|
    modifies pointers
    ensures after == |Packed(texts[..first + pointers.Length])|
    ensures forall i :: 0 <= i < pointers.Length ==> PointsTo(content, pointers[i], texts[first + i])
  {
    hide Packed, StringAt, GrowableBuffer.Sized;
    after := at;
    for i := 0 to pointers.Length
      invariant after == |Packed(texts[..first + i])|
      invariant forall k :: 0 <= k < i ==> PointsTo(content, pointers[k], texts[first + k])
    {
      PackedStringAt(texts, first + i);
      ContentInMemory(content, after, texts[first + i]);
      pointers[i] := Ptr(content.memory, after);
      var len := StringLen(content.memory, after, texts[first + i]);
      after := after + len + 1;
    }
  }

  method FillSheet(rows: seq<seq<Cell>>, width: nat, height: nat) returns (sheet: Sheet)
    requires Readable(rows) && |Packed(Texts(rows, width))| < SIZE_LIMIT
    requires width > 0 && height + 1 == |rows|
    requires forall r :: 0 <= r < |rows| ==> |rows[r]| <= width
    ensures sheet.Valid() && sheet.width == width && sheet.height == height
    ensures sheet.labelTexts + sheet.valueTexts == Texts(rows, width)
    ensures fresh(sheet) && fresh(sheet.labels) && fresh(sheet.values)
    ensures fresh(sheet.content) && fresh(sheet.content.memory)
  {
    sheet := new Sheet(width, height);
    WriteRows(sheet.content, rows, width);
    ghost var texts := Texts(rows, width);
    TextsHaveNoNul(rows, width);
    assert |texts| == width + width * height by {
      assert (height + 1) * width == height * width + width;
    }
    sheet.Point(texts);
  }

  lemma FilledLabel(sheet: Sheet, rows: seq<seq<Cell>>, x: nat)
    requires sheet.Valid() && x < sheet.width && |rows| == sheet.height + 1
    requires sheet.labelTexts + sheet.valueTexts == Texts(rows, sheet.width)
    ensures sheet.labelTexts[x] == CellText(rows[0], x)
  {
    TextsAt(rows, sheet.width, 0, x);
    assert (sheet.labelTexts + sheet.valueTexts)[x] == sheet.labelTexts[x];
  }

  /** The values follow the labels, one row further. */
  lemma CellOfGrid<T>(labels: seq<T>, values: seq<T>, texts: seq<T>, width: nat, x: nat, y: nat)
    requires labels + values == texts && |labels| == width && (y + 1) * width + x < |texts|
    ensures y * width + x < |values|
    ensures values[y * width + x] == texts[(y + 1) * width + x]
  {
    var i := y * width + x;
    assert (y + 1) * width + x == width + i;
    IndexRight(labels, values, i);
  }

  lemma FilledValue(sheet: Sheet, rows: seq<seq<Cell>>, texts: seq<seq<byte>>, x: nat, y: nat)
    requires sheet.Valid() && x < sheet.width && y < sheet.height && y + 1 < |rows|
    requires sheet.labelTexts + sheet.valueTexts == texts
    requires (y + 1) * sheet.width + x < |texts| && texts[(y + 1) * sheet.width + x] == CellText(rows[y + 1], x)
    ensures sheet.Value(x, y) == CellText(rows[y + 1], x)
  {
    CellOfGrid(sheet.labelTexts, sheet.valueTexts, texts, sheet.width, x, y);
  }

  lemma FilledCell(sheet: Sheet, rows: seq<seq<Cell>>, x: nat, y: nat)
    requires sheet.Valid() && x < sheet.width && y < sheet.height && |rows| == sheet.height + 1
    requires sheet.labelTexts + sheet.valueTexts == Texts(rows, sheet.width)
    ensures sheet.Value(x, y) == CellText(rows[y + 1], x)
  {
    TextsAt(rows, sheet.width, y + 1, x);
    FilledValue(sheet, rows, Texts(rows, sheet.width), x, y);
  }

  lemma NothingPacked(texts: seq<seq<byte>>)
    ensures texts[..0] == [] && Packed(texts[..0]) == []
  {
  }

  lemma TakeDrop<T>(s: seq<T>, i: nat)
    requires i <= |s|
    ensures s[..i] + s[i..] == s
  {
  }

  /** The pointers to strings that stand in a part of a list. */
  lemma PointersToPart(content: GrowableBuffer, pointers: array<Ptr>, texts: seq<seq<byte>>, first: nat,
                       part: seq<seq<byte>>)
    requires first + pointers.Length <= |texts| && part == texts[first..first + pointers.Length]
    requires forall i :: 0 <= i < pointers.Length ==> PointsTo(content, pointers[i], texts[first + i])
    ensures forall i :: 0 <= i < pointers.Length ==> PointsTo(content, pointers[i], part[i])
  {
    hide PointsTo;
    forall i | 0 <= i < pointers.Length ensures PointsTo(content, pointers[i], part[i]) {
      assert part[i] == texts[first + i];
    }
  }

  lemma IndexRight<T>(a: seq<T>, b: seq<T>, i: nat)
    requires i < |b|
    ensures (a + b)[|a| + i] == b[i]
  {
  }

  lemma FilledSheetShows(sheet: Sheet, rows: seq<seq<Cell>>)
    requires sheet.Valid() && sheet.width > 0 && |rows| == sheet.height + 1
    requires sheet.labelTexts + sheet.valueTexts == Texts(rows, sheet.width)
    ensures sheet.Shows(rows)
  {
    forall x | 0 <= x < sheet.width ensures sheet.labelTexts[x] == CellText(rows[0], x) {
      FilledLabel(sheet, rows, x);
    }
    forall x, y | 0 <= x < sheet.width && 0 <= y < sheet.height
      ensures sheet.Value(x, y) == CellText(rows[y + 1], x)
    {
      FilledCell(sheet, rows, x, y);
    }
  }

  /** The sheet of any ragged rows: with at least two rows and one column, label x is cell x of the
      first row and value (x, y) is cell x of row y + 1; otherwise the sheet is empty. */
  method RetrieveSheet(rows: seq<seq<Cell>>) returns (sheet: Sheet)
    requires Readable(rows) && |Packed(Texts(rows, Width(rows)))| < SIZE_LIMIT
    ensures sheet.Valid() && sheet.Shows(rows)
    ensures if Width(rows) > 0 && |rows| > 1
            then sheet.width == Width(rows) && sheet.height == |rows| - 1
            else sheet.width == 0 && sheet.height == 0
    ensures fresh(sheet) && fresh(sheet.labels) && fresh(sheet.values)
    ensures fresh(sheet.content) && fresh(sheet.content.memory)
  {
    var width := 0;
    for r := 0 to |rows|
      invariant width == Width(rows[..r])
    {
      assert rows[..r + 1][..r] == rows[..r];
      width := if |rows[r]| > width then |rows[r]| else width;
    }
    assert rows[..|rows|] == rows;
    if width > 0 && |rows| > 1 {
      sheet := FillSheet(rows, width, |rows| - 1);
      FilledSheetShows(sheet, rows);
    } else {
      sheet := new Sheet(0, 0);
    }
  }
}
