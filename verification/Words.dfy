/** read_string_array_file (code/hand_buffer.c): the words of a file. */
module Words {
  import opened Bytes
  import opened GrowableBuffers
  import opened StringArrays

  predicate IsGap(b: byte) { b == 0x00 || b == 0x09 || b == 0x0A || b == 0x0D || b == 0x20 }

  function WordEnd(s: seq<byte>, i: nat): (e: nat)
    requires i <= |s|
    ensures i <= e <= |s|
    ensures forall k :: i <= k < e ==> !IsGap(s[k])
    ensures e < |s| ==> IsGap(s[e])
    decreases |s| - i
  {
    if i == |s| || IsGap(s[i]) then i else WordEnd(s, i + 1)
  }

  function WordsFrom(s: seq<byte>, i: nat): seq<seq<byte>>
    requires i <= |s|
    decreases |s| - i
  {
    if i == |s| then []
    else if IsGap(s[i]) then WordsFrom(s, i + 1)
    else [s[i..WordEnd(s, i)]] + WordsFrom(s, WordEnd(s, i))
  }

  /** The maximal runs of bytes that are neither space nor NUL, in order. */
  function WordsOf(s: seq<byte>): seq<seq<byte>> { WordsFrom(s, 0) }

  // --- maximal runs, said the other way round: a text is its words woven with gaps ---

  function Weave(gaps: seq<seq<byte>>, words: seq<seq<byte>>): seq<byte>
    requires |gaps| == |words| + 1
  {
    if words == [] then gaps[0] else gaps[0] + words[0] + Weave(gaps[1..], words[1..])
  }

  /** Gaps hold gap bytes only, words hold none and are not empty, and a gap between two words is
      not empty. */
  ghost predicate Weavable(gaps: seq<seq<byte>>, words: seq<seq<byte>>) {
    && |gaps| == |words| + 1
    && (forall g, k :: 0 <= g < |gaps| && 0 <= k < |gaps[g]| ==> IsGap(gaps[g][k]))
    && (forall w, k :: 0 <= w < |words| && 0 <= k < |words[w]| ==> !IsGap(words[w][k]))
    && (forall w :: 0 <= w < |words| ==> words[w] != [])
    && (forall g :: 1 <= g < |gaps| - 1 ==> gaps[g] != [])
  }

  lemma {:induction false} SkipGap(s: seq<byte>, i: nat, j: nat)
    requires i <= j <= |s| && forall k :: i <= k < j ==> IsGap(s[k])
    ensures WordsFrom(s, i) == WordsFrom(s, j)
    decreases j - i
  {
    if i < j {
      SkipGap(s, i + 1, j);
    }
  }

  lemma {:induction false} WordEndIs(s: seq<byte>, i: nat, e: nat)
    requires i <= e <= |s| && (forall k :: i <= k < e ==> !IsGap(s[k])) && (e < |s| ==> IsGap(s[e]))
    ensures WordEnd(s, i) == e
    decreases e - i
  {
    if i < e {
      WordEndIs(s, i + 1, e);
    }
  }

  /** A gap and a word at position i, followed by nothing or by another gap. */
  lemma OneWord(s: seq<byte>, i: nat, gap: seq<byte>, word: seq<byte>, rest: seq<byte>)
    requires i <= |s| && s[i..] == gap + word + rest
    requires forall k :: 0 <= k < |gap| ==> IsGap(gap[k])
    requires word != [] && forall k :: 0 <= k < |word| ==> !IsGap(word[k])
    requires rest != [] ==> IsGap(rest[0])
    ensures i + |gap| + |word| <= |s| && s[i + |gap| + |word|..] == rest
    ensures WordsFrom(s, i) == [word] + WordsFrom(s, i + |gap| + |word|)
  {
    var start, end := i + |gap|, i + |gap| + |word|;
    assert forall k :: i <= k < |s| ==> s[k] == (gap + word + rest)[k - i];
    SkipGap(s, i, start);
    WordEndIs(s, start, end);
    assert s[start] == word[0] && s[start..end] == word;
  }

  lemma {:induction false} WordsOfWeaveAt(s: seq<byte>, i: nat, gaps: seq<seq<byte>>, words: seq<seq<byte>>)
    requires Weavable(gaps, words) && i <= |s| && s[i..] == Weave(gaps, words)
    ensures WordsFrom(s, i) == words
    decreases |words|
  {
    if words == [] {
      assert forall k :: i <= k < |s| ==> s[k] == s[i..][k - i];
      SkipGap(s, i, |s|);
    } else {
      WeavableTail(gaps, words);
      WeaveStartsWithGap(gaps[1..], words[1..]);
      OneWord(s, i, gaps[0], words[0], Weave(gaps[1..], words[1..]));
      WordsOfWeaveAt(s, i + |gaps[0]| + |words[0]|, gaps[1..], words[1..]);
    }
  }

  lemma WeavableTail(gaps: seq<seq<byte>>, words: seq<seq<byte>>)
    requires Weavable(gaps, words) && words != []
    ensures Weavable(gaps[1..], words[1..])
  {
    assert forall g :: 0 <= g < |gaps| - 1 ==> gaps[1..][g] == gaps[g + 1];
    assert forall w :: 0 <= w < |words| - 1 ==> words[1..][w] == words[w + 1];
  }

  lemma WeaveStartsWithGap(gaps: seq<seq<byte>>, words: seq<seq<byte>>)
    requires |gaps| == |words| + 1
    requires words != [] ==> gaps[0] != []
    requires forall k :: 0 <= k < |gaps[0]| ==> IsGap(gaps[0][k])
    ensures Weave(gaps, words) != [] ==> IsGap(Weave(gaps, words)[0])
  {
  }

  /** Whatever gaps stand between them, the words come back... */
  lemma WordsOfWeave(gaps: seq<seq<byte>>, words: seq<seq<byte>>)
    requires Weavable(gaps, words)
    ensures WordsOf(Weave(gaps, words)) == words
  {
    var s := Weave(gaps, words);
    assert s[0..] == s;
    WordsOfWeaveAt(s, 0, gaps, words);
  }

  function GapEnd(s: seq<byte>, i: nat): (e: nat)
    requires i <= |s|
    ensures i <= e <= |s|
    ensures forall k :: i <= k < e ==> IsGap(s[k])
    ensures e < |s| ==> !IsGap(s[e])
    decreases |s| - i
  {
    if i == |s| || !IsGap(s[i]) then i else GapEnd(s, i + 1)
  }

  function GapsFrom(s: seq<byte>, i: nat): (gaps: seq<seq<byte>>)
    requires i <= |s|
    ensures gaps != [] && gaps[0] == s[i..GapEnd(s, i)]
    decreases |s| - i
  {
    var g := GapEnd(s, i);
    if g == |s| then [s[i..]] else [s[i..g]] + GapsFrom(s, WordEnd(s, g))
  }

  lemma {:induction false} WeaveOfWordsFrom(s: seq<byte>, i: nat)
    requires i <= |s|
    ensures Weavable(GapsFrom(s, i), WordsFrom(s, i))
    ensures Weave(GapsFrom(s, i), WordsFrom(s, i)) == s[i..]
    decreases |s| - i
  {
    hide Weavable, Weave, GapsFrom, WordsFrom, WordEnd, IsGap;
    if GapEnd(s, i) == |s| {
      OnlyGap(s, i);
    } else {
      var e := WordEnd(s, GapEnd(s, i));
      WordIsNotEmpty(s, GapEnd(s, i));
      WeaveOfWordsFrom(s, e);
      WeaveStep(s, i, e);
    }
  }

  lemma WordIsNotEmpty(s: seq<byte>, g: nat)
    requires g < |s| && !IsGap(s[g])
    ensures WordEnd(s, g) > g
  {
  }

  lemma OnlyGap(s: seq<byte>, i: nat)
    requires i <= |s| && GapEnd(s, i) == |s|
    ensures Weavable(GapsFrom(s, i), WordsFrom(s, i)) && Weave(GapsFrom(s, i), WordsFrom(s, i)) == s[i..]
  {
    SkipGap(s, i, |s|);
    OneGapIsWeavable(s[i..]);
  }

  /** A gap and a word in front of a text that is woven already. */
  lemma WeaveStep(s: seq<byte>, i: nat, e: nat)
    requires i <= |s| && GapEnd(s, i) < |s| && e == WordEnd(s, GapEnd(s, i))
    requires Weavable(GapsFrom(s, e), WordsFrom(s, e)) && Weave(GapsFrom(s, e), WordsFrom(s, e)) == s[e..]
    ensures Weavable(GapsFrom(s, i), WordsFrom(s, i)) && Weave(GapsFrom(s, i), WordsFrom(s, i)) == s[i..]
  {
    hide Weavable, Weave, GapsFrom, WordsFrom, IsGap;
    var g := GapEnd(s, i);
    OneMoreGap(s, i, g, e);
    OneMoreWord(s, i, g, e);
    GapAfterWord(s, e);
    WordIsNotEmpty(s, g);
    ConsIsWeavable(s[i..g], s[g..e], GapsFrom(s, e), WordsFrom(s, e));
  }

  lemma OneMoreGap(s: seq<byte>, i: nat, g: nat, e: nat)
    requires i <= |s| && g == GapEnd(s, i) < |s| && e == WordEnd(s, g)
    ensures GapsFrom(s, i) == [s[i..g]] + GapsFrom(s, e)
    ensures s[i..] == s[i..g] + s[g..e] + s[e..]
  {
    hide WordEnd;
    SplitTwice(s, i, g, e);
  }

  lemma SplitTwice<T>(s: seq<T>, i: nat, j: nat, k: nat)
    requires i <= j <= k <= |s|
    ensures s[i..] == s[i..j] + s[j..k] + s[k..]
  {
    assert s[i..] == s[i..j] + s[j..];
    assert s[j..] == s[j..k] + s[k..];
  }

  lemma OneMoreWord(s: seq<byte>, i: nat, g: nat, e: nat)
    requires i <= |s| && g == GapEnd(s, i) < |s| && e == WordEnd(s, g)
    ensures WordsFrom(s, i) == [s[g..e]] + WordsFrom(s, e)
  {
    SkipGap(s, i, g);
  }

  lemma GapAfterWord(s: seq<byte>, e: nat)
    requires e <= |s| && (e < |s| ==> IsGap(s[e]))
    ensures WordsFrom(s, e) != [] ==> s[e..GapEnd(s, e)] != []
  {
  }

  lemma OneGapIsWeavable(gap: seq<byte>)
    requires forall k :: 0 <= k < |gap| ==> IsGap(gap[k])
    ensures Weavable([gap], []) && Weave([gap], []) == gap
  {
  }

  lemma ConsIsWeavable(gap: seq<byte>, word: seq<byte>, gaps: seq<seq<byte>>, words: seq<seq<byte>>)
    requires Weavable(gaps, words) && (words != [] ==> gaps[0] != [])
    requires forall k :: 0 <= k < |gap| ==> IsGap(gap[k])
    requires word != [] && forall k :: 0 <= k < |word| ==> !IsGap(word[k])
    ensures Weavable([gap] + gaps, [word] + words)
    ensures Weave([gap] + gaps, [word] + words) == gap + word + Weave(gaps, words)
  {
    assert ([gap] + gaps)[1..] == gaps && ([word] + words)[1..] == words;
  }

  /** ...and every text is the weave of its own words. */
  lemma WeaveOfWords(s: seq<byte>) returns (gaps: seq<seq<byte>>)
    ensures Weavable(gaps, WordsOf(s)) && Weave(gaps, WordsOf(s)) == s
  {
    gaps := GapsFrom(s, 0);
    WeaveOfWordsFrom(s, 0);
    assert s[0..] == s;
  }

  // --- the scan ---

  /** Words not appended yet when the scan stands at i. */
  ghost function Pending(s: seq<byte>, i: nat): seq<seq<byte>>
    requires i <= |s|
  {
    WordsFrom(s, if i == 0 || IsGap(s[i - 1]) then i else WordEnd(s, i))
  }

  /** Bytes of the array's buffer spent on the words appended so far. */
  ghost predicate Fits(s: seq<byte>, i: nat, used: nat)
    requires i <= |s|
  {
    used <= if i == 0 || IsGap(s[i - 1]) then i else WordEnd(s, i) + 1
  }

  predicate Blanked(file: seq<byte>, memory: seq<byte>, to: nat) {
    && to <= |file| < |memory|
    && memory[|file|] == 0
    && (forall k :: 0 <= k < to ==> memory[k] == if IsSpace(file[k]) then 0 else file[k])
    && (forall k :: to <= k < |file| ==> memory[k] == file[k])
  }

  method BlankSpaces(memory: array<byte>, used: nat, ghost file: seq<byte>)
    requires used == |file| && Blanked(file, memory[..], 0)
    modifies memory
    ensures Blanked(file, memory[..], used)
  {
    for i := 0 to used
      invariant Blanked(file, memory[..], i)
    {
      if IsSpace(memory[i]) {
        memory[i] := 0;
      }
    }
  }

  /** append_string_array, given a pointer to the start of a word. */
  method AppendWordAt(result: StringArray, memory: array<byte>, at: nat, ghost file: seq<byte>)
    requires result.Valid() && Blanked(file, memory[..], |file|)
    requires at < |file| < 0x3FFF_FFFF && !IsGap(file[at])
    requires result.buffer.used <= |file| && result.count <= result.buffer.used
    modifies result, result.elem, result.buffer, result.buffer.memory
    ensures result.Valid() && result.strings == old(result.strings) + [file[at..WordEnd(file, at)]]
    ensures result.elem == old(result.elem) || fresh(result.elem)
    ensures result.buffer.memory == old(result.buffer.memory) || fresh(result.buffer.memory)
    ensures result.buffer.used == old(result.buffer.used) + WordEnd(file, at) - at + 1
  {
    ghost var word := file[at..WordEnd(file, at)];
    BlankedWord(file, memory[..], at);
    var len := StringLen(memory, at, word);
    assert memory[at..at + len] == word;
    result.Append(memory[at..at + len]);
  }

  method ReadStringArrayFile(file: seq<byte>) returns (result: StringArray)
    requires |file| < 0x3FFF_FFFF
    ensures fresh(result) && fresh(result.elem) && fresh(result.buffer) && fresh(result.buffer.memory)
    ensures result.Valid() && result.strings == WordsOf(file)
  {
    result := new StringArray();
    var content := ReadEntireFile(file);
    BlankSpaces(content.memory, content.used, file);
    AppendWords(result, content.memory, content.used, file);
  }

  /** A word starts where a byte follows a NUL. */
  method AppendWords(result: StringArray, memory: array<byte>, used: nat, ghost file: seq<byte>)
    requires result.Valid() && result.strings == [] && result.buffer.used == 0
    requires used == |file| < 0x3FFF_FFFF && Blanked(file, memory[..], used)
    requires memory != result.buffer.memory
    modifies result, result.elem, result.buffer, result.buffer.memory
    ensures result.Valid() && result.strings == WordsOf(file)
    ensures result.elem == old(result.elem) || fresh(result.elem)
    ensures result.buffer.memory == old(result.buffer.memory) || fresh(result.buffer.memory)
  {
    hide Pending, Fits, WordEnd, Started;
    var prevChar: byte := 0;
    PendingEnds(file);
    for i := 0 to used
      invariant result.Valid()
      invariant result.elem == old(result.elem) || fresh(result.elem)
      invariant result.buffer.memory == old(result.buffer.memory) || fresh(result.buffer.memory)
      invariant prevChar == 0 <==> (i == 0 || IsGap(file[i - 1]))
      invariant result.strings + Pending(file, i) == WordsOf(file)
      invariant Fits(file, i, result.buffer.used) && result.count <= result.buffer.used
    {
      PendingStep(file, i, result.buffer.used);
      ghost var before := result.strings;
      ConcatAssoc(before, Started(file, i), Pending(file, i + 1));
      if prevChar == 0 && memory[i] != 0 {
        AppendWordAt(result, memory, i, file);
      }
      StartedIs(file, i);
      assert result.strings == before + Started(file, i);
      prevChar := memory[i];
    }
  }

  /** What the step at i appends. */
  ghost function Started(s: seq<byte>, i: nat): seq<seq<byte>>
    requires i < |s|
  {
    if (i == 0 || IsGap(s[i - 1])) && !IsGap(s[i]) then [s[i..WordEnd(s, i)]] else []
  }

  lemma PendingEnds(s: seq<byte>)
    ensures Pending(s, 0) == WordsOf(s) && Pending(s, |s|) == [] && Fits(s, 0, 0)
  {
  }

  lemma StartedIs(s: seq<byte>, i: nat)
    requires i < |s|
    ensures Started(s, i) == if (i == 0 || IsGap(s[i - 1])) && !IsGap(s[i]) then [s[i..WordEnd(s, i)]] else []
  {
  }

  lemma PendingStep(s: seq<byte>, i: nat, used: nat)
    requires i < |s| && Fits(s, i, used)
    ensures Pending(s, i) == Started(s, i) + Pending(s, i + 1)
    ensures var used' := if Started(s, i) == [] then used else used + WordEnd(s, i) - i + 1;
            Fits(s, i + 1, used') && used' <= |s| + 1
    ensures i == 0 || IsGap(s[i - 1]) ==> used <= |s|
  {
  }

  /** In the blanked content a word reads as a C string. */
  lemma BlankedWord(s: seq<byte>, blanked: seq<byte>, i: nat)
    requires i < |s| && !IsGap(s[i]) && Blanked(s, blanked, |s|)
    ensures StringAt(blanked, i, s[i..WordEnd(s, i)])
  {
    var word := s[i..WordEnd(s, i)];
    assert forall k :: 0 <= k < |word| ==> word[k] == s[i + k];
    assert blanked[i..i + |word|] == word;
  }
}
