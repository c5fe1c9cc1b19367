/** From the report template to the issues (code/hand.c): grading writes a report for every student by
    stage 1, announcing reads the reports and puts the student's row into them by stage 2. */
module Feedback {
  import opened Bytes
  import opened GrowableBuffers
  import opened StringArrays
  import opened Sheets
  import opened Templates
  import TemplateParts
  import opened FileReplacement
  import opened FeedbackIssues

  /** The reports of all students; the files are those of each student's work directory. */
  function Reports(students: seq<Files>, t: seq<byte>): (reports: seq<seq<byte>>)
    ensures |reports| == |students|
    ensures forall y :: 0 <= y < |students| ==> reports[y] == Stage1(students[y], t)
  {
    seq(|students|, (y: nat) => if y < |students| then Stage1(students[y], t) else [])
  }

  /** A template and files for which two stages are one substitution. */
  ghost predicate Plain(students: seq<Files>, t: seq<byte>) {
    WellFormed(t) && forall y :: 0 <= y < |students| ==> PlainFiles(students[y], t)
  }

  /** The one substitution, for the y-th student. */
  ghost function Issue(students: seq<Files>, rows: seq<Row>, t: seq<byte>, y: nat): Out
    requires y < |students| == |rows| && rows[y].Valid()
  {
    Render(students[y], rows[y], t)
  }

  method WriteReports(template: GrowableBuffer, students: seq<Files>) returns (reports: StringArray)
    requires template.Valid() && Plain(students, template.Content())
    requires |students| < 0x3FFF_FFFF && |Packed(Reports(students, template.Content()))| < SIZE_LIMIT
    modifies template.memory
    ensures template.Valid() && template.memory[..] == old(template.memory[..])
    ensures fresh(reports) && fresh(reports.elem) && fresh(reports.buffer) && fresh(reports.buffer.memory)
    ensures reports.Valid() && reports.strings == Reports(students, old(template.Content()))
  {
    hide Packed, Stage1, WellFormed, PlainFiles, NoStray, GrowableBuffer.Sized;
    ghost var t := template.Content();
    ghost var texts := Reports(students, t);
    reports := new StringArray();
    NothingPacked(texts);
    WellFormedHasNoStray(t);
    for y := 0 to |students|
      invariant template.Valid() && template.memory[..] == old(template.memory[..]) && template.Content() == t
      invariant fresh(reports) && fresh(reports.elem) && fresh(reports.buffer) && fresh(reports.buffer.memory)
      invariant reports.Valid() && reports.strings == texts[..y] && reports.buffer.used == |Packed(texts[..y])|
    {
      PackedStep(texts, y);
      Stage1HasNoNul(students[y], t);
      ContentInFront(template);
      var report := FormatReportByFileReplacement(template, students[y]);
      ContentInFront(template);
      ContentInFront(report);
      reports.Append(report.memory[..report.used]);
    }
    assert texts[..|students|] == texts;
  }

  lemma ContentInFront(buffer: GrowableBuffer)
    requires buffer.Valid()
    ensures buffer.used < buffer.memory.Length && buffer.Content() == buffer.memory[..][..buffer.used]
    ensures buffer.memory[..buffer.used] == buffer.Content()
  {
  }

  /** Issue y is the template with the student's files and cells put in, by one substitution; there are
      issues if and only if every label was found for every student. */
  method GradeAndAnnounce(template: GrowableBuffer, students: seq<Files>, sheet: Sheet, ghost rows: seq<Row>)
    returns (issues: StringArray?)
    requires template.Valid() && Plain(students, template.Content()) && template.memory != sheet.content.memory
    requires sheet.Valid() && AreRows(sheet, rows) && |students| == sheet.height < 0x3FFF_FFFF
    requires |Packed(Reports(students, template.Content()))| < SIZE_LIMIT
    requires |Packed(Issues(rows, Reports(students, template.Content())))| < SIZE_LIMIT
    modifies template.memory
    ensures template.memory[..] == old(template.memory[..])
    ensures issues != null <==>
            forall y :: 0 <= y < |rows| ==> Issue(students, rows, old(template.Content()), y).1
    ensures issues != null ==>
              && issues.Valid() && issues.count == |rows|
              && forall y :: 0 <= y < |rows| ==>
                   issues.strings[y] == Issue(students, rows, old(template.Content()), y).0
  {
    hide Packed, Stage1, Stage2, WellFormed, PlainFiles, Templates.Render, RowOf, GrowableBuffer.Sized;
    ghost var t := template.Content();
    var reports := WriteReports(template, students);
    forall y | 0 <= y < |rows|
      ensures Stage2(rows[y], Reports(students, t)[y]) == Issue(students, rows, t, y)
    {
      TwoStagesAreOne(students[y], rows[y], t);
    }
    issues := FormatFeedbackIssues(reports, sheet, rows);
  }

  /** Written part by part, the template meets the requirements, and each issue is what the parts become for the
      student. */
  lemma IssueOfParts(students: seq<Files>, rows: seq<Row>, parts: seq<TemplateParts.Part>, y: nat,
                     texts: seq<seq<byte>>, found: seq<bool>)
    requires y < |students| == |rows| && rows[y].Valid()
    requires forall s :: 0 <= s < |students| ==> TemplateParts.AllPlain(students[s], parts)
    requires TemplateParts.AllBecome(students[y], rows[y], parts, texts, found)
    ensures Plain(students, TemplateParts.BytesOf(parts))
    ensures Issue(students, rows, TemplateParts.BytesOf(parts), y) == (TemplateParts.Concat(texts), false !in found)
  {
    hide WellFormed, PlainFiles, Templates.Render, TemplateParts.AllPlain, TemplateParts.AllBecome;
    TemplateParts.RenderParts(students[y], rows[y], parts, texts, found);
    forall s | 0 <= s < |students| ensures PlainFiles(students[s], TemplateParts.BytesOf(parts)) {
      TemplateParts.ReportOfParts(students[s], parts);
    }
  }

  /** The rows are those of the spreadsheet: cell (x, y) stands under label x, for the y-th student. */
  lemma RowIsOfSpreadsheet(sheet: Sheet, rows: seq<Row>, cells: seq<seq<Cell>>, x: nat, y: nat)
    requires sheet.Valid() && AreRows(sheet, rows) && sheet.Shows(cells) && x < sheet.width && y < sheet.height
    ensures |rows| == sheet.height == |cells| - 1 && |rows[y].names| == |rows[y].cells| == sheet.width
    ensures rows[y].names[x] == if x < |cells[0]| && cells[0][x].Text? then cells[0][x].text else []
    ensures rows[y].cells[x] == if x < |cells[y + 1]| && cells[y + 1][x].Text? then cells[y + 1][x].text else []
  {
  }
}
