/** Feedback templates (code/hand.c): stage 1 puts files in place of ${./path}, stage 2 puts cells
    of the sheet in place of ${name}. Here both are functions on texts, and their composition is
    compared with one single substitution. */
module Templates {
  import opened Bytes
  import opened Options
  import opened Sheets

  const DOLLAR: byte := 0x24
  const DOT: byte := 0x2E
  const OPEN: byte := 0x7B
  const CLOSE: byte := 0x7D

  predicate IsPair(t: seq<byte>, i: nat) { i + 1 < |t| && t[i] == DOLLAR && t[i + 1] == DOLLAR }

  predicate IsOpen(t: seq<byte>, i: nat) { i + 1 < |t| && t[i] == DOLLAR && t[i + 1] == OPEN }

  /** Where the placeholder ends that is open at position i with the given depth, or the end of t. */
  function CloseAt(t: seq<byte>, i: nat, depth: nat): (c: nat)
    requires i <= |t| && depth > 0
    ensures i <= c <= |t|
    ensures c < |t| ==> t[c] == CLOSE
    decreases |t| - i
  {
    if i == |t| then i
    else if IsPair(t, i) then CloseAt(t, i + 2, depth)
    else if IsOpen(t, i) then CloseAt(t, i + 2, depth + 1)
    else if t[i] == CLOSE then (if depth == 1 then i else CloseAt(t, i + 1, depth - 1))
    else CloseAt(t, i + 1, depth)
  }

  /** What a scan writes before it reaches that end: both stages write for $$ even there. */
  function Inside(t: seq<byte>, i: nat, depth: nat, pair: seq<byte>): seq<byte>
    requires i <= |t| && depth > 0
    decreases |t| - i
  {
    if i == |t| then []
    else if IsPair(t, i) then pair + Inside(t, i + 2, depth, pair)
    else if IsOpen(t, i) then Inside(t, i + 2, depth + 1, pair)
    else if t[i] == CLOSE then (if depth == 1 then [] else Inside(t, i + 1, depth - 1, pair))
    else Inside(t, i + 1, depth, pair)
  }

  lemma InsidePair(t: seq<byte>, i: nat, depth: nat, pair: seq<byte>)
    requires i <= |t| && depth > 0 && IsPair(t, i)
    ensures CloseAt(t, i, depth) == CloseAt(t, i + 2, depth)
    ensures Inside(t, i, depth, pair) == pair + Inside(t, i + 2, depth, pair)
  {
  }

  lemma InsideOpen(t: seq<byte>, i: nat, depth: nat, pair: seq<byte>)
    requires i <= |t| && depth > 0 && IsOpen(t, i)
    ensures CloseAt(t, i, depth) == CloseAt(t, i + 2, depth + 1)
    ensures Inside(t, i, depth, pair) == Inside(t, i + 2, depth + 1, pair)
  {
  }

  lemma InsideClose(t: seq<byte>, i: nat, depth: nat, pair: seq<byte>)
    requires i < |t| && depth > 0 && t[i] == CLOSE
    ensures depth == 1 ==> CloseAt(t, i, depth) == i && Inside(t, i, depth, pair) == []
    ensures depth > 1 ==> CloseAt(t, i, depth) == CloseAt(t, i + 1, depth - 1)
    ensures depth > 1 ==> Inside(t, i, depth, pair) == Inside(t, i + 1, depth - 1, pair)
  {
  }

  lemma InsideOther(t: seq<byte>, i: nat, depth: nat, pair: seq<byte>)
    requires i < |t| && depth > 0 && !IsPair(t, i) && !IsOpen(t, i) && t[i] != CLOSE
    ensures CloseAt(t, i, depth) == CloseAt(t, i + 1, depth)
    ensures Inside(t, i, depth, pair) == Inside(t, i + 1, depth, pair)
  {
  }

  // --- stage 1: format_report_by_file_replacement ---

  /** The directory and what its files read as; a missing file reads as nothing. */
  datatype Files = Files(dir: seq<byte>, read: seq<byte> -> seq<byte>)

  predicate IsFileName(name: seq<byte>) { |name| >= 2 && name[0] == DOT && name[1] == SLASH }

  function Path(files: Files, name: seq<byte>): seq<byte> { files.dir + [SLASH] + name }

  function ReplaceByFile(files: Files, name: seq<byte>): seq<byte> {
    if IsFileName(name) then files.read(Path(files, name)) else [DOLLAR, OPEN] + name + [CLOSE]
  }

  function Stage1(files: Files, t: seq<byte>): seq<byte>
    decreases |t|, 1
  {
    if t == [] then []
    else if IsPair(t, 0) then [DOLLAR, DOLLAR] + Stage1(files, t[2..])
    else if IsOpen(t, 0) then Stage1From(files, t, 2, 1)
    else [t[0]] + Stage1(files, t[1..])
  }

  /** t starts with a placeholder that is still open at position i. */
  function Stage1From(files: Files, t: seq<byte>, i: nat, depth: nat): seq<byte>
    requires 2 <= i <= |t| && depth > 0
    decreases |t|, 0
  {
    var c := CloseAt(t, i, depth);
    Inside(t, i, depth, [DOLLAR, DOLLAR]) +
    if c == |t| then [] else ReplaceByFile(files, CString(t[2..c])) + Stage1(files, t[c + 1..])
  }

  /** No closing brace outside a placeholder: there stage 1 would use a stale name. */
  predicate NoStray(t: seq<byte>)
    decreases |t|
  {
    if t == [] then true
    else if IsPair(t, 0) then NoStray(t[2..])
    else if IsOpen(t, 0) then
      var c := CloseAt(t, 2, 1);
      c == |t| || NoStray(t[c + 1..])
    else t[0] != CLOSE && NoStray(t[1..])
  }

  // --- stage 2: format_feedback_issues, for one row of the sheet ---

  datatype Row = Row(names: seq<seq<byte>>, cells: seq<seq<byte>>)
  {
    predicate Valid() { |names| == |cells| }

    function Cell(name: seq<byte>): Option<seq<byte>>
      requires Valid()
    {
      var x := LabelIndex(names, name);
      if x < 0 then None else Some(cells[x])
    }
  }

  /** A text and whether every name in it was found. */
  type Out = (seq<byte>, bool)

  function Then(a: Out, b: Out): Out { (a.0 + b.0, a.1 && b.1) }

  function Write(text: seq<byte>, rest: Out): Out { (text + rest.0, rest.1) }

  function ReplaceByCell(row: Row, name: seq<byte>): Out
    requires row.Valid()
  {
    match row.Cell(name)
    case Some(cell) => (cell, true)
    case None => ([], false)
  }

  function Stage2(row: Row, t: seq<byte>): Out
    requires row.Valid()
    decreases |t|, 1
  {
    if t == [] then ([], true)
    else if IsPair(t, 0) then Write([DOLLAR], Stage2(row, t[2..]))
    else if IsOpen(t, 0) then Stage2From(row, t, 2, 1)
    else if t[0] == CLOSE then Stage2(row, t[1..])
    else Write([t[0]], Stage2(row, t[1..]))
  }

  function Stage2From(row: Row, t: seq<byte>, i: nat, depth: nat): Out
    requires row.Valid() && 2 <= i <= |t| && depth > 0
    decreases |t|, 0
  {
    var c := CloseAt(t, i, depth);
    Write(Inside(t, i, depth, [DOLLAR]),
          if c == |t| then ([], true) else Then(ReplaceByCell(row, t[2..c]), Stage2(row, t[c + 1..])))
  }

  // --- one substitution for both ---

  function Fill(files: Files, row: Row, name: seq<byte>): Out
    requires row.Valid()
  {
    if IsFileName(name) then (files.read(Path(files, name)), true) else ReplaceByCell(row, name)
  }

  /** $$ stands for $, ${./path} for a file, ${name} for a cell, the rest for itself. */
  function Render(files: Files, row: Row, t: seq<byte>): Out
    requires row.Valid()
    decreases |t|
  {
    if t == [] then ([], true)
    else if IsPair(t, 0) then Write([DOLLAR], Render(files, row, t[2..]))
    else if IsOpen(t, 0) then
      var c := CloseAt(t, 2, 1);
      if c == |t| then ([], true) else Then(Fill(files, row, t[2..c]), Render(files, row, t[c + 1..]))
    else Write([t[0]], Render(files, row, t[1..]))
  }

  /** No stray closing brace, no $$ inside a placeholder, no NUL. */
  predicate WellFormed(t: seq<byte>)
    decreases |t|
  {
    if t == [] then true
    else if IsPair(t, 0) then WellFormed(t[2..])
    else if IsOpen(t, 0) then
      var c := CloseAt(t, 2, 1);
      && Inside(t, 2, 1, [DOLLAR]) == []
      && 0 !in t[2..c]
      && (c == |t| || WellFormed(t[c + 1..]))
    else t[0] != CLOSE && t[0] != 0 && WellFormed(t[1..])
  }

  /** Well-formed templates are among those that stage 1 handles. */
  lemma {:induction false} WellFormedHasNoStray(t: seq<byte>)
    requires WellFormed(t)
    ensures NoStray(t)
    decreases |t|
  {
    hide CloseAt, Inside;
    if t == [] {
    } else if IsPair(t, 0) {
      WellFormedHasNoStray(t[2..]);
    } else if IsOpen(t, 0) {
      if CloseAt(t, 2, 1) < |t| {
        WellFormedHasNoStray(t[CloseAt(t, 2, 1) + 1..]);
      }
    } else {
      WellFormedHasNoStray(t[1..]);
    }
  }

  predicate PlainFile(text: seq<byte>) { DOLLAR !in text && CLOSE !in text && 0 !in text }

  /** Every file that the template names is free of $, closing braces and NUL. */
  predicate PlainFiles(files: Files, t: seq<byte>)
    decreases |t|
  {
    if t == [] then true
    else if IsPair(t, 0) then PlainFiles(files, t[2..])
    else if IsOpen(t, 0) then
      var c := CloseAt(t, 2, 1);
      || c == |t|
      || ((IsFileName(t[2..c]) ==> PlainFile(files.read(Path(files, t[2..c])))) && PlainFiles(files, t[c + 1..]))
    else PlainFiles(files, t[1..])
  }

  // --- a placeholder ends at the same place in every text that agrees up to there ---

  lemma {:induction false} InsideEmptyForBoth(t: seq<byte>, i: nat, depth: nat)
    requires i <= |t| && depth > 0
    ensures Inside(t, i, depth, [DOLLAR]) == [] <==> Inside(t, i, depth, [DOLLAR, DOLLAR]) == []
    decreases |t| - i
  {
    if i < |t| && !IsPair(t, i) {
      if IsOpen(t, i) {
        InsideEmptyForBoth(t, i + 2, depth + 1);
      } else if t[i] == CLOSE {
        if depth > 1 {
          InsideEmptyForBoth(t, i + 1, depth - 1);
        }
      } else {
        InsideEmptyForBoth(t, i + 1, depth);
      }
    }
  }

  lemma PrefixAgrees<T>(t: seq<T>, u: seq<T>, n: nat)
    requires n <= |t| && n <= |u| && u[..n] == t[..n]
    ensures forall k :: 0 <= k < n ==> u[k] == t[k]
  {
    forall k | 0 <= k < n ensures u[k] == t[k] {
      assert u[k] == u[..n][k] == t[..n][k];
    }
  }

  lemma {:induction false} CloseIsLocal(t: seq<byte>, u: seq<byte>, i: nat, depth: nat)
    requires i <= |t| && depth > 0 && CloseAt(t, i, depth) < |t|
    requires CloseAt(t, i, depth) < |u| && u[..CloseAt(t, i, depth) + 1] == t[..CloseAt(t, i, depth) + 1]
    requires Inside(t, i, depth, [DOLLAR]) == []
    ensures CloseAt(u, i, depth) == CloseAt(t, i, depth)
    ensures Inside(u, i, depth, [DOLLAR]) == []
    decreases |t| - i
  {
    var c := CloseAt(t, i, depth);
    PrefixAgrees(t, u, c + 1);
    if IsPair(t, i) {
    } else if IsOpen(t, i) {
      CloseIsLocal(t, u, i + 2, depth + 1);
    } else if t[i] == CLOSE {
      if depth > 1 {
        CloseIsLocal(t, u, i + 1, depth - 1);
      }
    } else {
      CloseIsLocal(t, u, i + 1, depth);
    }
  }

  // --- the two stages are one substitution ---

  /** Plain text goes through stage 2 unchanged, whatever follows. */
  lemma {:induction false} Stage2Plain(row: Row, text: seq<byte>, rest: seq<byte>)
    requires row.Valid() && DOLLAR !in text && CLOSE !in text
    ensures Stage2(row, text + rest) == Write(text, Stage2(row, rest))
  {
    if text == [] {
      assert text + rest == rest;
      WriteNothing(Stage2(row, rest));
    } else {
      var t := text + rest;
      assert t[0] == text[0] && t[1..] == text[1..] + rest;
      Stage2Plain(row, text[1..], rest);
      assert [text[0]] + text[1..] == text;
      WriteTwice([text[0]], text[1..], Stage2(row, rest));
    }
  }

  /** A placeholder without $$ inside, in front of any text. */
  lemma Stage2Placeholder(row: Row, t: seq<byte>, rest: seq<byte>)
    requires row.Valid() && IsOpen(t, 0) && Inside(t, 2, 1, [DOLLAR]) == []
    requires CloseAt(t, 2, 1) < |t|
    ensures var c := CloseAt(t, 2, 1);
            Stage2(row, t[..c + 1] + rest) == Then(ReplaceByCell(row, t[2..c]), Stage2(row, rest))
  {
    hide CloseAt, Inside, ReplaceByCell;
    var c := CloseAt(t, 2, 1);
    var u := t[..c + 1] + rest;
    assert u[..c + 1] == t[..c + 1] && u[c + 1..] == rest && u[2..c] == t[2..c];
    CloseIsLocal(t, u, 2, 1);
    PrefixAgrees(t, u, c + 1);
    assert IsOpen(u, 0) && !IsPair(u, 0);
    WriteNothing(Then(ReplaceByCell(row, t[2..c]), Stage2(row, rest)));
  }

  lemma WriteTwice(a: seq<byte>, b: seq<byte>, o: Out)
    ensures Write(a, Write(b, o)) == Write(a + b, o)
  {
    assert a + (b + o.0) == (a + b) + o.0;
  }

  lemma WriteNothing(o: Out)
    ensures Write([], o) == o
  {
    assert [] + o.0 == o.0;
  }

  lemma Stage2Byte(row: Row, b: byte, rest: seq<byte>)
    requires row.Valid() && b != CLOSE
    requires b == DOLLAR && rest != [] ==> rest[0] != DOLLAR && rest[0] != OPEN
    ensures Stage2(row, [b] + rest) == Write([b], Stage2(row, rest))
  {
    assert ([b] + rest)[1..] == rest;
  }

  lemma Stage2Pair(row: Row, rest: seq<byte>)
    requires row.Valid()
    ensures Stage2(row, [DOLLAR, DOLLAR] + rest) == Write([DOLLAR], Stage2(row, rest))
  {
    assert ([DOLLAR, DOLLAR] + rest)[2..] == rest;
  }

  lemma Stage1KeepsFirstByte(files: Files, t: seq<byte>)
    requires t != [] && t[0] != DOLLAR
    ensures Stage1(files, t) != [] && Stage1(files, t)[0] == t[0]
  {
  }

  lemma FilledAlike(files: Files, row: Row, t: seq<byte>, rest: seq<byte>)
    requires row.Valid() && IsOpen(t, 0) && Inside(t, 2, 1, [DOLLAR]) == [] && CloseAt(t, 2, 1) < |t|
    requires var name := t[2..CloseAt(t, 2, 1)]; IsFileName(name) ==> PlainFile(files.read(Path(files, name)))
    ensures var name := t[2..CloseAt(t, 2, 1)];
            Stage2(row, ReplaceByFile(files, name) + rest) == Then(Fill(files, row, name), Stage2(row, rest))
  {
    hide CloseAt, Inside;
    var c := CloseAt(t, 2, 1);
    var name := t[2..c];
    if IsFileName(name) {
      Stage2Plain(row, files.read(Path(files, name)), rest);
    } else {
      CloseAtCloses(t);
      assert t[..c + 1] == [DOLLAR, OPEN] + name + [CLOSE];
      Stage2Placeholder(row, t, rest);
    }
  }

  lemma CloseAtCloses(t: seq<byte>)
    requires IsOpen(t, 0) && CloseAt(t, 2, 1) < |t|
    ensures t[CloseAt(t, 2, 1)] == CLOSE
  {
  }

  /** Stage 2 after stage 1 is the single substitution, for the text and for the missing names. */
  lemma {:induction false} TwoStagesAreOne(files: Files, row: Row, t: seq<byte>)
    requires row.Valid() && WellFormed(t) && PlainFiles(files, t)
    ensures Stage2(row, Stage1(files, t)) == Render(files, row, t)
    decreases |t|
  {
    hide CloseAt, Inside, Fill, ReplaceByFile;
    if t == [] {
    } else if IsPair(t, 0) {
      TwoStagesAreOne(files, row, t[2..]);
      Stage2Pair(row, Stage1(files, t[2..]));
    } else if IsOpen(t, 0) {
      var c := CloseAt(t, 2, 1);
      InsideEmptyForBoth(t, 2, 1);
      if c < |t| {
        TwoStagesAreOne(files, row, t[c + 1..]);
        FilledAlike(files, row, t, Stage1(files, t[c + 1..]));
        assert Stage1(files, t) == ReplaceByFile(files, t[2..c]) + Stage1(files, t[c + 1..]);
      }
    } else {
      TwoStagesAreOne(files, row, t[1..]);
      if t[0] == DOLLAR && |t| > 1 {
        Stage1KeepsFirstByte(files, t[1..]);
      }
      Stage2Byte(row, t[0], Stage1(files, t[1..]));
    }
  }

  lemma {:induction false} Stage1HasNoNul(files: Files, t: seq<byte>)
    requires WellFormed(t) && PlainFiles(files, t)
    ensures 0 !in Stage1(files, t)
    decreases |t|
  {
    hide CloseAt, Inside, Stage1, ReplaceByFile, IsFileName;
    Stage1Starts(files, t);
    if t == [] {
    } else if IsPair(t, 0) {
      Stage1HasNoNul(files, t[2..]);
    } else if IsOpen(t, 0) {
      var c := CloseAt(t, 2, 1);
      Stage1Opens(files, t);
      if c < |t| {
        Stage1HasNoNul(files, t[c + 1..]);
        ReplacedHasNoNul(files, t[2..c]);
      }
    } else {
      Stage1HasNoNul(files, t[1..]);
    }
  }

  lemma ReplacedHasNoNul(files: Files, name: seq<byte>)
    requires 0 !in name && (IsFileName(name) ==> PlainFile(files.read(Path(files, name))))
    ensures 0 !in ReplaceByFile(files, name)
  {
    hide Path;
  }

  // --- stage 1 alone ---

  /** Every placeholder is closed and none names a file. */
  predicate NamesNoFile(t: seq<byte>)
    decreases |t|
  {
    if t == [] then true
    else if IsPair(t, 0) then NamesNoFile(t[2..])
    else if IsOpen(t, 0) then
      var c := CloseAt(t, 2, 1);
      c < |t| && !IsFileName(t[2..c]) && NamesNoFile(t[c + 1..])
    else NamesNoFile(t[1..])
  }

  /** Stage 1 changes nothing if and only if every placeholder is closed and none names a file. */
  lemma Stage1UnchangedIff(files: Files, t: seq<byte>)
    requires WellFormed(t) && PlainFiles(files, t)
    ensures Stage1(files, t) == t <==> NamesNoFile(t)
  {
    hide Stage1, WellFormed, PlainFiles, NamesNoFile;
    if NamesNoFile(t) {
      Stage1WithoutFiles(files, t);
    } else {
      Stage1Changes(files, t);
    }
  }

  /** It names no file, but its placeholder is not closed: stage 1 writes nothing of it. */
  lemma UnclosedIsDropped(files: Files)
    ensures var t := [DOLLAR, OPEN, 0x61];
            WellFormed(t) && PlainFiles(files, t) && Stage1(files, t) == [] && !NamesNoFile(t)
  {
    var t := [DOLLAR, OPEN, 0x61];
    assert CloseAt(t, 3, 1) == 3;
    assert Inside(t, 3, 1, [DOLLAR]) == [] && Inside(t, 3, 1, [DOLLAR, DOLLAR]) == [];
    assert CloseAt(t, 2, 1) == 3;
  }

  lemma {:induction false} Stage1WithoutFiles(files: Files, t: seq<byte>)
    requires WellFormed(t) && NamesNoFile(t)
    ensures Stage1(files, t) == t
    decreases |t|
  {
    hide CloseAt, Inside, Stage1;
    if t == [] {
      Stage1Starts(files, t);
    } else if IsPair(t, 0) {
      Stage1WithoutFiles(files, t[2..]);
      Stage1Starts(files, t);
      assert [DOLLAR, DOLLAR] + t[2..] == t;
    } else if IsOpen(t, 0) {
      Stage1WithoutFiles(files, t[CloseAt(t, 2, 1) + 1..]);
      PlaceholderStays(files, t);
    } else {
      Stage1WithoutFiles(files, t[1..]);
      Stage1Starts(files, t);
      assert [t[0]] + t[1..] == t;
    }
  }

  lemma Stage1Starts(files: Files, t: seq<byte>)
    ensures t == [] ==> Stage1(files, t) == []
    ensures IsPair(t, 0) ==> Stage1(files, t) == [DOLLAR, DOLLAR] + Stage1(files, t[2..])
    ensures t != [] && !IsPair(t, 0) && !IsOpen(t, 0) ==> Stage1(files, t) == [t[0]] + Stage1(files, t[1..])
  {
    hide Stage1From;
  }

  /** A placeholder that names no file, in front of a text that stage 1 leaves alone. */
  lemma PlaceholderStays(files: Files, t: seq<byte>)
    requires IsOpen(t, 0) && Inside(t, 2, 1, [DOLLAR]) == []
    requires var c := CloseAt(t, 2, 1);
             && c < |t| && 0 !in t[2..c] && !IsFileName(t[2..c]) && Stage1(files, t[c + 1..]) == t[c + 1..]
    ensures Stage1(files, t) == t
  {
    hide CloseAt, Inside;
    var c := CloseAt(t, 2, 1);
    InsideEmptyForBoth(t, 2, 1);
    CloseAtCloses(t);
    assert IsOpen(t, 0) && !IsPair(t, 0);
    WrittenBack(t, c);
  }

  lemma WrittenBack(t: seq<byte>, c: nat)
    requires 2 <= c < |t| && t[0] == DOLLAR && t[1] == OPEN && t[c] == CLOSE
    ensures [] + (([DOLLAR, OPEN] + t[2..c] + [CLOSE]) + t[c + 1..]) == t
  {
    assert t[..c + 1] == [DOLLAR, OPEN] + t[2..c] + [CLOSE];
    assert t == t[..c + 1] + t[c + 1..];
  }

  /** A placeholder without $$ inside, closed or not. */
  lemma Stage1Opens(files: Files, t: seq<byte>)
    requires WellFormed(t) && IsOpen(t, 0)
    ensures var c := CloseAt(t, 2, 1);
            if c == |t| then Stage1(files, t) == []
            else
              && WellFormed(t[c + 1..])
              && Stage1(files, t) == ReplaceByFile(files, t[2..c]) + Stage1(files, t[c + 1..])
  {
    hide CloseAt, Inside, ReplaceByFile;
    InsideEmptyForBoth(t, 2, 1);
    assert IsOpen(t, 0) && !IsPair(t, 0);
  }

  predicate StartsWithFile(t: seq<byte>) { IsOpen(t, 0) && IsFileName(t[2..]) }

  /** What a placeholder becomes starts with no placeholder for a file, even if nothing is left of it. */
  lemma ReplacedStarts(files: Files, name: seq<byte>, rest: seq<byte>)
    requires IsFileName(name) ==> PlainFile(files.read(Path(files, name)))
    requires !StartsWithFile(rest)
    ensures !StartsWithFile(ReplaceByFile(files, name) + rest)
  {
    hide Path;
    var s := ReplaceByFile(files, name) + rest;
    if IsFileName(name) {
      var text := files.read(Path(files, name));
      if text == [] {
        assert s == rest;
      } else {
        assert s[0] == text[0] && text[0] in text;
      }
    } else {
      assert s[2..] == name + [CLOSE] + rest;
    }
  }

  lemma {:induction false} NoFileIsLeft(files: Files, t: seq<byte>)
    requires WellFormed(t) && PlainFiles(files, t)
    ensures !StartsWithFile(Stage1(files, t))
    decreases |t|
  {
    hide CloseAt, Inside, Stage1, ReplaceByFile, IsFileName;
    Stage1Starts(files, t);
    if t == [] || IsPair(t, 0) {
    } else if IsOpen(t, 0) {
      var c := CloseAt(t, 2, 1);
      Stage1Opens(files, t);
      if c < |t| {
        NoFileIsLeft(files, t[c + 1..]);
        ReplacedStarts(files, t[2..c], Stage1(files, t[c + 1..]));
      }
    } else if t[0] == DOLLAR && |t| > 1 {
      Stage1KeepsFirstByte(files, t[1..]);
    } else if |t| == 1 {
      Stage1Starts(files, t[1..]);
    }
  }

  /** A file in place of the placeholder that names it is another text, whatever follows. */
  lemma FileDiffers(files: Files, t: seq<byte>, rest: seq<byte>)
    requires IsOpen(t, 0) && CloseAt(t, 2, 1) < |t| && IsFileName(t[2..CloseAt(t, 2, 1)])
    requires PlainFile(files.read(Path(files, t[2..CloseAt(t, 2, 1)]))) && !StartsWithFile(rest)
    ensures ReplaceByFile(files, t[2..CloseAt(t, 2, 1)]) + rest != t
  {
    hide CloseAt, Path;
    var c := CloseAt(t, 2, 1);
    var text := files.read(Path(files, t[2..c]));
    if text == [] {
      assert text + rest == rest;
      assert t[2..][0] == t[2..c][0] && t[2..][1] == t[2..c][1];
    } else {
      assert (text + rest)[0] == text[0] && text[0] in text;
    }
  }

  lemma {:induction false} Stage1Changes(files: Files, t: seq<byte>)
    requires WellFormed(t) && PlainFiles(files, t) && !NamesNoFile(t)
    ensures Stage1(files, t) != t
    decreases |t|
  {
    hide CloseAt, Inside, Stage1, IsFileName, StartsWithFile;
    Stage1Starts(files, t);
    if IsPair(t, 0) {
      Stage1Changes(files, t[2..]);
      assert Stage1(files, t)[2..] == Stage1(files, t[2..]);
    } else if IsOpen(t, 0) {
      var c := CloseAt(t, 2, 1);
      Stage1Opens(files, t);
      if c < |t| {
        var rest := Stage1(files, t[c + 1..]);
        if IsFileName(t[2..c]) {
          NoFileIsLeft(files, t[c + 1..]);
          FileDiffers(files, t, rest);
        } else {
          Stage1Changes(files, t[c + 1..]);
          assert Stage1(files, t)[c + 1..] == rest;
        }
      }
    } else {
      Stage1Changes(files, t[1..]);
      assert Stage1(files, t)[1..] == Stage1(files, t[1..]);
    }
  }
}
