/** format_report_by_file_replacement (code/hand.c): one scan with a depth counter, which ends a
    placeholder's name in place by a temporary NUL. */
module FileReplacement {
  import opened Bytes
  import opened GrowableBuffers
  import opened Templates

  /** What is still to be written when the scan stands at i; a placeholder that is open there has
      its name at id. */
  ghost function Left(files: Files, t: seq<byte>, i: nat, depth: nat, id: nat): seq<byte>
    requires i <= |t| && (depth > 0 ==> 2 <= id <= i)
  {
    if depth == 0 then Stage1(files, t[i..]) else Stage1From(files, t[id - 2..], i - (id - 2), depth)
  }

  ghost predicate NoStrayLeft(t: seq<byte>, i: nat, depth: nat, id: nat)
    requires i <= |t| && (depth > 0 ==> 2 <= id <= i)
  {
    if depth == 0 then NoStray(t[i..])
    else
      var c := CloseAt(t[id - 2..], i - (id - 2), depth);
      c == |t[id - 2..]| || NoStray(t[id - 2..][c + 1..])
  }

  lemma AtPair(files: Files, t: seq<byte>, i: nat, depth: nat, id: nat)
    requires i <= |t| && (depth > 0 ==> 2 <= id <= i) && IsPair(t, i)
    ensures Left(files, t, i, depth, id) == [DOLLAR, DOLLAR] + Left(files, t, i + 2, depth, id)
    ensures NoStrayLeft(t, i, depth, id) <==> NoStrayLeft(t, i + 2, depth, id)
  {
    hide ReplaceByFile, CString, CloseAt, Inside;
    if depth == 0 {
      assert IsPair(t[i..], 0) && t[i..][2..] == t[i + 2..];
    } else {
      hide Stage1, NoStray;
      var u, j := t[id - 2..], i - (id - 2);
      assert IsPair(u, j);
      InsidePair(u, j, depth, [DOLLAR, DOLLAR]);
      var c := CloseAt(u, j, depth);
      var rest := if c == |u| then [] else ReplaceByFile(files, CString(u[2..c])) + Stage1(files, u[c + 1..]);
      ConcatAssoc([DOLLAR, DOLLAR], Inside(u, j + 2, depth, [DOLLAR, DOLLAR]), rest);
    }
  }

  lemma AtOpen(files: Files, t: seq<byte>, i: nat, depth: nat, id: nat)
    requires i <= |t| && (depth > 0 ==> 2 <= id <= i) && IsOpen(t, i)
    ensures var id' := if depth == 0 then i + 2 else id;
            && Left(files, t, i, depth, id) == Left(files, t, i + 2, depth + 1, id')
            && (NoStrayLeft(t, i, depth, id) <==> NoStrayLeft(t, i + 2, depth + 1, id'))
  {
    hide ReplaceByFile, CString, CloseAt, Inside;
    if depth == 0 {
      assert IsOpen(t[i..], 0) && !IsPair(t[i..], 0);
    } else {
      hide Stage1, NoStray;
      var u, j := t[id - 2..], i - (id - 2);
      assert IsOpen(u, j);
      InsideOpen(u, j, depth, [DOLLAR, DOLLAR]);
    }
  }

  lemma AtClose(files: Files, t: seq<byte>, i: nat, depth: nat, id: nat)
    requires i < |t| && t[i] == CLOSE && (depth > 0 ==> 2 <= id <= i) && NoStrayLeft(t, i, depth, id)
    ensures depth > 0
    ensures depth > 1 ==> Left(files, t, i, depth, id) == Left(files, t, i + 1, depth - 1, id)
    ensures depth == 1 ==> Left(files, t, i, 1, id) ==
                           ReplaceByFile(files, CString(t[id..i])) + Left(files, t, i + 1, 0, id)
    ensures NoStrayLeft(t, i + 1, depth - 1, id)
  {
    hide ReplaceByFile, CString, Stage1, CloseAt, Inside;
    assert t[i..][0] == CLOSE;
    if depth > 0 {
      hide NoStray;
      var u, j := t[id - 2..], i - (id - 2);
      assert u[j] == CLOSE;
      InsideClose(u, j, depth, [DOLLAR, DOLLAR]);
      assert u[2..j] == t[id..i] && u[j + 1..] == t[i + 1..];
    }
  }

  lemma AtOther(files: Files, t: seq<byte>, i: nat, depth: nat, id: nat)
    requires i < |t| && !IsPair(t, i) && !IsOpen(t, i) && t[i] != CLOSE
    requires depth > 0 ==> 2 <= id <= i
    ensures Left(files, t, i, depth, id) == (if depth == 0 then [t[i]] else []) + Left(files, t, i + 1, depth, id)
    ensures NoStrayLeft(t, i, depth, id) <==> NoStrayLeft(t, i + 1, depth, id)
  {
    hide ReplaceByFile, CString, CloseAt, Inside;
    if depth == 0 {
      assert t[i..][0] == t[i] && t[i..][1..] == t[i + 1..];
    } else {
      hide Stage1, NoStray;
      var u, j := t[id - 2..], i - (id - 2);
      assert u[j] == t[i] && !IsPair(u, j) && !IsOpen(u, j);
      InsideOther(u, j, depth, [DOLLAR, DOLLAR]);
    }
  }

  lemma AtEnd(files: Files, t: seq<byte>, depth: nat, id: nat)
    requires depth > 0 ==> 2 <= id <= |t|
    ensures Left(files, t, |t|, depth, id) == []
  {
    hide ReplaceByFile, CString;
  }

  /** sofar is written, and what is left at i completes it to whole. */
  ghost predicate Reached(files: Files, t: seq<byte>, i: nat, depth: nat, id: nat, sofar: seq<byte>, whole: seq<byte>) {
    && i <= |t| && (depth > 0 ==> 2 <= id <= i)
    && NoStrayLeft(t, i, depth, id) && sofar + Left(files, t, i, depth, id) == whole
  }

  lemma PairStep(files: Files, t: seq<byte>, i: nat, depth: nat, id: nat, sofar: seq<byte>, whole: seq<byte>)
    requires Reached(files, t, i, depth, id, sofar, whole) && IsPair(t, i)
    ensures Reached(files, t, i + 2, depth, id, sofar + [DOLLAR, DOLLAR], whole) && |sofar| + 2 <= |whole|
  {
    hide Left, NoStrayLeft;
    AtPair(files, t, i, depth, id);
    ConcatAssoc(sofar, [DOLLAR, DOLLAR], Left(files, t, i + 2, depth, id));
  }

  lemma OpenStep(files: Files, t: seq<byte>, i: nat, depth: nat, id: nat, sofar: seq<byte>, whole: seq<byte>)
    requires Reached(files, t, i, depth, id, sofar, whole) && IsOpen(t, i)
    ensures Reached(files, t, i + 2, depth + 1, if depth == 0 then i + 2 else id, sofar, whole)
  {
    hide Left, NoStrayLeft;
    AtOpen(files, t, i, depth, id);
  }

  lemma CloseStep(files: Files, t: seq<byte>, i: nat, depth: nat, id: nat, sofar: seq<byte>, whole: seq<byte>)
    requires Reached(files, t, i, depth, id, sofar, whole) && i < |t| && t[i] == CLOSE
    ensures depth > 0
    ensures depth > 1 ==> Reached(files, t, i + 1, depth - 1, id, sofar, whole)
    ensures depth == 1 ==>
              var text := ReplaceByFile(files, CString(t[id..i]));
              Reached(files, t, i + 1, 0, id, sofar + text, whole) && |sofar| + |text| <= |whole|
  {
    hide Left, NoStrayLeft, ReplaceByFile, CString;
    AtClose(files, t, i, depth, id);
    if depth == 1 {
      ConcatAssoc(sofar, ReplaceByFile(files, CString(t[id..i])), Left(files, t, i + 1, 0, id));
    }
  }

  lemma OtherStep(files: Files, t: seq<byte>, i: nat, depth: nat, id: nat, sofar: seq<byte>, whole: seq<byte>)
    requires Reached(files, t, i, depth, id, sofar, whole)
    requires i < |t| && !IsPair(t, i) && !IsOpen(t, i) && t[i] != CLOSE
    ensures depth == 0 ==> Reached(files, t, i + 1, 0, id, sofar + [t[i]], whole) && |sofar| + 1 <= |whole|
    ensures depth > 0 ==> Reached(files, t, i + 1, depth, id, sofar, whole)
  {
    hide Left, NoStrayLeft;
    AtOther(files, t, i, depth, id);
    ConcatAssoc(sofar, if depth == 0 then [t[i]] else [], Left(files, t, i + 1, depth, id));
    assert sofar + [] == sofar;
  }

  lemma EndReached(files: Files, t: seq<byte>, depth: nat, id: nat, sofar: seq<byte>, whole: seq<byte>)
    requires Reached(files, t, |t|, depth, id, sofar, whole)
    ensures sofar == whole
  {
    hide Left, NoStrayLeft;
    AtEnd(files, t, depth, id);
  }

  /** With a NUL written at i, the bytes from id read as a C string. */
  lemma CutAt(before: seq<byte>, after: seq<byte>, id: nat, i: nat)
    requires id <= i < |before| && after == before[i := 0]
    ensures StringAt(after, id, CString(before[id..i]))
  {
    var s := CString(before[id..i]);
    assert before[id..i][..|s|] == s;
    assert after[id..id + |s|] == s;
    assert |s| < i - id ==> before[id..i][|s|] == 0;
  }

  method WriteIdentifier(result: GrowableBuffer, files: Files, identifier: seq<byte>)
    requires result.Valid() && result.used + |ReplaceByFile(files, identifier)| < SIZE_LIMIT
    modifies result, result.memory
    ensures result.Valid() && result.Content() == old(result.Content()) + ReplaceByFile(files, identifier)
    ensures result.memory == old(result.memory) || fresh(result.memory)
  {
    hide GrowableBuffer.Sized;
    if |identifier| >= 2 && identifier[0] == DOT && identifier[1] == SLASH {
      result.Write(files.read(files.dir + [SLASH] + identifier));
    } else {
      ghost var before := result.Content();
      result.Write([DOLLAR, OPEN]);
      result.Write(identifier);
      result.Write([CLOSE]);
      assert before + [DOLLAR, OPEN] + identifier + [CLOSE] == before + ([DOLLAR, OPEN] + identifier + [CLOSE]);
    }
  }

  /** The placeholder whose name runs from id to i: the name is cut off by a NUL, used, and the
      brace is put back. */
  method WriteReplacement(result: GrowableBuffer, memory: array<byte>, files: Files, id: nat, i: nat)
    requires result.Valid() && result.memory != memory
    requires id <= i < memory.Length && memory[i] == CLOSE
    requires result.used + |ReplaceByFile(files, CString(memory[id..i]))| < SIZE_LIMIT
    modifies memory, result, result.memory
    ensures result.Valid() && memory[..] == old(memory[..])
    ensures result.Content() == old(result.Content()) + ReplaceByFile(files, CString(old(memory[id..i])))
    ensures result.memory == old(result.memory) || fresh(result.memory)
  {
    hide ReplaceByFile, CString;
    ghost var before := memory[..];
    ghost var name := CString(memory[id..i]);
    memory[i] := 0;
    assert before[id..i] == old(memory[id..i]);
    CutAt(before, memory[..], id, i);
    var len := StringLen(memory, id, name);
    assert memory[id..id + len] == name;
    WriteIdentifier(result, files, memory[id..id + len]);
    memory[i] := CLOSE;
    assert memory[..] == before;
  }

  /** Stage 1. The template is left as it was. */
  method FormatReportByFileReplacement(format: GrowableBuffer, files: Files) returns (result: GrowableBuffer)
    requires format.Valid() && NoStray(format.Content())
    requires |Stage1(files, format.Content())| < SIZE_LIMIT
    modifies format.memory
    ensures format.Valid() && format.memory[..] == old(format.memory[..])
    ensures fresh(result) && fresh(result.memory) && result.Valid()
    ensures result.Content() == Stage1(files, old(format.Content()))
  {
    hide Reached, Stage1, NoStray, ReplaceByFile, CString;
    assert format.used < format.memory.Length && format.memory[format.used] == 0;
    hide GrowableBuffer.Sized;
    result := new GrowableBuffer();
    ghost var t, whole := format.Content(), Stage1(files, format.Content());
    var memory := format.memory;
    var depth: nat, identifier: nat, i: nat := 0, 0, 0;
    StartReached(files, t);
    while i < format.used
      invariant i <= format.used && (depth > 0 ==> 2 <= identifier <= i)
      invariant fresh(result) && fresh(result.memory) && result.Valid()
      invariant memory[..] == old(memory[..])
      invariant Reached(files, t, i, depth, identifier, result.Content(), whole)
    {
      assert memory[i] == memory[..][i] == t[i];
      assert memory[i + 1] == memory[..][i + 1] == if i + 1 < |t| then t[i + 1] else 0;
      if memory[i] == DOLLAR && memory[i + 1] == DOLLAR {
        PairStep(files, t, i, depth, identifier, result.Content(), whole);
        result.Write([DOLLAR, DOLLAR]);
        i := i + 1;
      } else if memory[i] == DOLLAR && memory[i + 1] == OPEN {
        OpenStep(files, t, i, depth, identifier, result.Content(), whole);
        if depth == 0 {
          identifier := i + 2;
        }
        depth := depth + 1;
        i := i + 1;
      } else if memory[i] == CLOSE {
        CloseStep(files, t, i, depth, identifier, result.Content(), whole);
        depth := depth - 1;
        if depth == 0 {
          SliceOfPrefix(memory[..], |t|, identifier, i);
          WriteReplacement(result, memory, files, identifier, i);
        }
      } else {
        OtherStep(files, t, i, depth, identifier, result.Content(), whole);
        if depth == 0 {
          result.Write([memory[i]]);
        }
      }
      i := i + 1;
    }
    assert format.memory[format.used] == memory[..][format.used] == 0;
    EndReached(files, t, depth, identifier, result.Content(), whole);
  }

  lemma SliceOfPrefix<T>(m: seq<T>, n: nat, from: nat, to: nat)
    requires from <= to <= n <= |m|
    ensures m[..n][from..to] == m[from..to]
  {
  }

  lemma StartReached(files: Files, t: seq<byte>)
    requires NoStray(t)
    ensures Reached(files, t, 0, 0, 0, [], Stage1(files, t))
  {
    assert t[0..] == t && [] + Stage1(files, t) == Stage1(files, t);
  }
}
