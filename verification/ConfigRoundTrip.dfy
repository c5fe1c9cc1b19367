/** Parsing undoes rendering (code/hand_config.c): a text made of key = "value" entries, with any
    white space and comments in between and behind, yields exactly its entries. */
module ConfigRoundTrip {
  import opened Bytes
  import opened ConfigLexer
  import opened ConfigPairs

  predicate IsBlank(c: byte) { c == 0x20 || c == 0x09 || c == 0x0D || c == 0x0A }

  /** White space and comments, each comment from # to its newline. */
  predicate IsGap(gap: seq<byte>, inComment: bool) {
    if gap == [] then !inComment
    else
      var c, rest := gap[0], gap[1..];
      && c != 0
      && if inComment then IsGap(rest, c != 0x0A)
         else if c == 0x23 then IsGap(rest, true)
         else IsBlank(c) && IsGap(rest, false)
  }

  /** What may stand behind the last entry: a gap, or one whose last comment ends with the text. */
  predicate IsTail(tail: seq<byte>, inComment: bool) {
    tail == []
    || var c, rest := tail[0], tail[1..];
       && c != 0
       && if inComment then IsTail(rest, c != 0x0A)
          else if c == 0x23 then IsTail(rest, true)
          else IsBlank(c) && IsTail(rest, false)
  }

  predicate IsKeyLetter(c: byte) {
    var letter := c as char;
    'A' <= letter <= 'Z' || 'a' <= letter <= 'z'
  }

  predicate IsKeyChar(c: byte) {
    var letter := c as char;
    IsKeyLetter(c) || '0' <= letter <= '9' || letter == '_' || letter == '.'
  }

  /** A key of a config: a letter, and letters, digits, underscores and dots behind it. */
  predicate IsKey(key: seq<byte>) {
    key != [] && IsKeyLetter(key[0]) && forall k :: 0 <= k < |key| ==> IsKeyChar(key[k])
  }

  /** A name goes on exactly at these characters. */
  lemma KeyCharsGoOn(text: seq<byte>, at: nat)
    requires at < |text| && text[at] != 0
    ensures NameEnd(text, at) > at <==> IsKeyChar(text[at])
    ensures IsLetter(text[at]) <==> IsKeyLetter(text[at])
    ensures IsNameChar(text[at]) <==> IsKeyChar(text[at])
  {
  }

  lemma KeyIsName(key: seq<byte>)
    requires IsKey(key)
    ensures key != [] && IsLetter(key[0]) && forall k :: 0 <= k < |key| ==> IsNameChar(key[k])
  {
  }

  datatype Entry = Entry(
    before: seq<byte>, key: seq<byte>, beforeEqual: seq<byte>, afterEqual: seq<byte>, quote: byte, value: seq<byte>)
  {
    ghost predicate Valid() {
      && IsGap(before, false) && IsGap(beforeEqual, false) && IsGap(afterEqual, false)
      && IsKey(key)
      && (quote == 0x22 || quote == 0x27) && quote !in value && 0 !in value
    }

    function Text(): seq<byte> {
      (before + key) + (beforeEqual + [0x3D]) + (afterEqual + ([quote] + value + [quote]))
    }
  }

  function Render(entries: seq<Entry>, tail: seq<byte>): seq<byte> {
    if entries == [] then tail else entries[0].Text() + Render(entries[1..], tail)
  }

  function PairsOf(entries: seq<Entry>): (pairs: seq<(seq<byte>, seq<byte>)>)
    ensures |pairs| == |entries| && forall i :: 0 <= i < |entries| ==> pairs[i] == (entries[i].key, entries[i].value)
  {
    seq(|entries|, i requires 0 <= i < |entries| => (entries[i].key, entries[i].value))
  }

  lemma {:induction false} SkipGap(text: seq<byte>, at: nat, gap: seq<byte>, inComment: bool)
    requires Occurs(text, at, gap) && IsGap(gap, inComment)
    ensures SkipSpace(text, at, inComment) == SkipSpace(text, at + |gap|, false)
    decreases |gap|
  {
    if gap != [] {
      var c := gap[0];
      assert text[at] == text[at..at + |gap|][0] == c;
      assert text[at + 1..at + |gap|] == gap[1..];
      SkipGap(text, at + 1, gap[1..], if inComment then c != LF else c == HASH);
    }
  }

  lemma {:induction false} NameEndIs(text: seq<byte>, at: nat, name: seq<byte>)
    requires Occurs(text, at, name) && forall k :: 0 <= k < |name| ==> IsNameChar(name[k])
    requires !IsNameChar(CharAt(text, at + |name|))
    ensures NameEnd(text, at) == at + |name|
    decreases |name|
  {
    if name != [] {
      assert text[at] == text[at..at + |name|][0] == name[0];
      assert text[at + 1..at + |name|] == name[1..];
      NameEndIs(text, at + 1, name[1..]);
    }
  }

  lemma {:induction false} QuoteEndIs(text: seq<byte>, at: nat, value: seq<byte>, quote: byte)
    requires Occurs(text, at, value) && quote !in value && 0 !in value
    requires CharAt(text, at + |value|) == quote
    ensures QuoteEnd(text, at, quote) == at + |value|
    decreases |value|
  {
    if value != [] {
      assert text[at] == text[at..at + |value|][0] == value[0];
      assert text[at + 1..at + |value|] == value[1..];
      QuoteEndIs(text, at + 1, value[1..], quote);
    }
  }

  /** White space ends at once before a character that is neither space, comment nor NUL. */
  lemma StopsAt(text: seq<byte>, at: nat)
    requires at < |text| && text[at] != 0 && text[at] != HASH && !IsSpace(text[at])
    ensures SkipSpace(text, at, false) == at
  {
  }

  /** Where the token after a gap starts. */
  lemma GapThen(text: seq<byte>, at: nat, gap: seq<byte>, rest: seq<byte>)
    requires Occurs(text, at, gap + rest) && IsGap(gap, false)
    requires rest != [] && rest[0] != 0 && rest[0] != HASH && !IsSpace(rest[0])
    ensures at + |gap| + |rest| <= |text|
    ensures Occurs(text, at + |gap|, rest) && text[at + |gap|] == rest[0]
    ensures SkipSpace(text, at, false) == at + |gap|
  {
    hide IsGap, SkipSpace, Occurs;
    OccursSplit(text, at, gap, rest);
    OccursAt(text, at + |gap|, rest, 0);
    SkipGap(text, at, gap, false);
    StopsAt(text, at + |gap|);
  }

  lemma LexName(text: seq<byte>, at: nat, gap: seq<byte>, name: seq<byte>)
    requires Occurs(text, at, gap + name) && IsGap(gap, false)
    requires IsKey(name) && !IsNameChar(CharAt(text, at + |gap| + |name|))
    ensures Lex(text, at) == (Token(Identifier, at + |gap|, |name|), at + |gap| + |name|)
    ensures Occurs(text, at + |gap|, name)
  {
    hide IsGap, SkipSpace, NameEnd, Occurs, IsKey;
    KeyIsName(name);
    GapThen(text, at, gap, name);
    NameEndIs(text, at + |gap|, name);
  }

  lemma LexEqual(text: seq<byte>, at: nat, gap: seq<byte>)
    requires Occurs(text, at, gap + [EQUAL]) && IsGap(gap, false)
    ensures Lex(text, at) == (Token(Equal, 0, 0), at + |gap| + 1)
  {
    hide IsGap, SkipSpace, Occurs;
    GapThen(text, at, gap, [EQUAL]);
  }

  lemma LexValue(text: seq<byte>, at: nat, gap: seq<byte>, quote: byte, value: seq<byte>)
    requires Occurs(text, at, gap + ([quote] + value + [quote])) && IsGap(gap, false)
    requires quote == APOSTROPHE || quote == QUOTE
    requires quote !in value && 0 !in value
    ensures Lex(text, at) == (Token(Str, at + |gap| + 1, |value|), at + |gap| + |value| + 2)
    ensures Occurs(text, at + |gap| + 1, value)
  {
    hide IsGap, SkipSpace, Occurs, Lex;
    GapThen(text, at, gap, [quote] + value + [quote]);
    QuotedValue(text, at + |gap|, quote, value);
    LexQuoted(text, at, at + |gap|);
  }

  lemma QuotedValue(text: seq<byte>, open: nat, quote: byte, value: seq<byte>)
    requires Occurs(text, open, [quote] + value + [quote]) && quote !in value && 0 !in value
    ensures var close := open + 1 + |value|;
            && close < |text| && text[open] == quote && text[close] == quote
            && Occurs(text, open + 1, value) && QuoteEnd(text, open + 1, quote) == close
  {
    hide QuoteEnd, Occurs;
    OccursSplit(text, open, [quote] + value, [quote]);
    OccursSplit(text, open, [quote], value);
    OccursAt(text, open, [quote], 0);
    OccursAt(text, open + 1 + |value|, [quote], 0);
    QuoteEndIs(text, open + 1, value, quote);
  }

  lemma LexQuoted(text: seq<byte>, at: nat, open: nat)
    requires at <= open < |text| && SkipSpace(text, at, false) == open
    requires text[open] == APOSTROPHE || text[open] == QUOTE
    ensures var end := QuoteEnd(text, open + 1, text[open]);
            Lex(text, at) == (Token(Str, open + 1, end - (open + 1)), if CharAt(text, end) == 0 then end else end + 1)
  {
    hide SkipSpace, QuoteEnd;
  }

  lemma GapOrEqualEndsName(gap: seq<byte>)
    requires IsGap(gap, false)
    ensures !IsNameChar((gap + [EQUAL])[0])
  {
  }

  /** The three parts of an entry, and what ends its key. */
  lemma EntryParts(text: seq<byte>, pos: nat, e: Entry)
    requires e.Valid() && Occurs(text, pos, e.Text())
    ensures var p1 := pos + |e.before| + |e.key|;
            var p2 := p1 + |e.beforeEqual| + 1;
            && Occurs(text, pos, e.before + e.key) && Occurs(text, p1, e.beforeEqual + [EQUAL])
            && Occurs(text, p2, e.afterEqual + ([e.quote] + e.value + [e.quote]))
            && !IsNameChar(CharAt(text, p1))
            && pos + |e.Text()| == p2 + |e.afterEqual| + |e.value| + 2
  {
    hide IsGap, Occurs, IsNameChar;
    var keyPart, equalPart := e.before + e.key, e.beforeEqual + [EQUAL];
    var valuePart := e.afterEqual + ([e.quote] + e.value + [e.quote]);
    OccursSplit(text, pos, keyPart + equalPart, valuePart);
    OccursSplit(text, pos, keyPart, equalPart);
    OccursAt(text, pos + |keyPart|, equalPart, 0);
    GapOrEqualEndsName(e.beforeEqual);
  }

  /** The three tokens of an entry. */
  lemma EntryTokens(text: seq<byte>, pos: nat, e: Entry)
    requires e.Valid() && Occurs(text, pos, e.Text())
    ensures var p1 := pos + |e.before| + |e.key|;
            var p2 := p1 + |e.beforeEqual| + 1;
            && Lex(text, pos) == (Token(Identifier, p1 - |e.key|, |e.key|), p1)
            && Lex(text, p1) == (Token(Equal, 0, 0), p2)
            && Lex(text, p2) == (Token(Str, p2 + |e.afterEqual| + 1, |e.value|), pos + |e.Text()|)
            && Occurs(text, p1 - |e.key|, e.key) && Occurs(text, p2 + |e.afterEqual| + 1, e.value)
  {
    hide IsGap, Lex, Occurs, Entry.Text, IsNameChar, IsKey, CharAt;
    EntryParts(text, pos, e);
    var p1 := pos + |e.before| + |e.key|;
    LexName(text, pos, e.before, e.key);
    LexEqual(text, p1, e.beforeEqual);
    LexValue(text, p1 + |e.beforeEqual| + 1, e.afterEqual, e.quote, e.value);
  }

  /** One entry is one pair. */
  lemma EntryIsNextPair(text: seq<byte>, pos: nat, e: Entry)
    requires e.Valid() && Occurs(text, pos, e.Text())
    ensures var step := NextPair(text, pos);
            && step.Pair? && step.pos == pos + |e.Text()|
            && TextOf(text, step.key) == e.key && TextOf(text, step.value) == e.value
  {
    hide IsGap, Lex, After, TokenAt;
    EntryTokens(text, pos, e);
    ThreeTokens(text, pos);
  }

  lemma ThreeTokens(text: seq<byte>, pos: nat)
    requires pos <= |text|
    ensures TokenAt(text, pos, 0) == Lex(text, pos).0
    ensures TokenAt(text, pos, 1) == Lex(text, Lex(text, pos).1).0
    ensures TokenAt(text, pos, 2) == Lex(text, Lex(text, Lex(text, pos).1).1).0
    ensures After(text, pos, 3) == Lex(text, Lex(text, Lex(text, pos).1).1).1
  {
    hide Lex;
    assert After(text, pos, 1) == Lex(text, pos).1;
    assert After(text, pos, 2) == Lex(text, After(text, pos, 1)).1;
  }

  lemma {:induction false} PairsOfRendering(text: seq<byte>, pos: nat, entries: seq<Entry>, tail: seq<byte>)
    requires forall i :: 0 <= i < |entries| ==> entries[i].Valid()
    requires IsTail(tail, false)
    requires pos <= |text| && text[pos..] == Render(entries, tail)
    ensures PairsFrom(text, pos) == PairsOf(entries)
    decreases |entries|
  {
    hide NextPair, Lex, IsGap, IsTail;
    if entries == [] {
      TailHasNoPair(text, pos, tail);
    } else {
      var e, rest := entries[0], Render(entries[1..], tail);
      var next := pos + |e.Text()|;
      assert text[pos..next] == text[pos..][..|e.Text()|] == e.Text();
      assert text[next..] == text[pos..][|e.Text()|..] == rest;
      EntryIsNextPair(text, pos, e);
      PairsOfRendering(text, next, entries[1..], tail);
      assert PairsOf(entries) == [(e.key, e.value)] + PairsOf(entries[1..]);
    }
  }

  lemma {:induction false} SkipTail(text: seq<byte>, at: nat, inComment: bool)
    requires at <= |text| && IsTail(text[at..], inComment)
    ensures SkipSpace(text, at, inComment) == |text|
    decreases |text| - at
  {
    if at < |text| {
      var c := text[at];
      assert text[at..][1..] == text[at + 1..];
      SkipTail(text, at + 1, if inComment then c != LF else c == HASH);
    }
  }

  lemma TailHasNoPair(text: seq<byte>, pos: nat, tail: seq<byte>)
    requires IsTail(tail, false) && pos <= |text| && text[pos..] == tail
    ensures NextPair(text, pos).NoMore?
  {
    hide IsTail, SkipSpace;
    SkipTail(text, pos, false);
    ThreeTokens(text, pos);
  }

  /** Whatever the gaps, the quotes and the comments: the pairs come back, in order, and no more. */
  lemma ParsingUndoesRendering(entries: seq<Entry>, tail: seq<byte>)
    requires forall i :: 0 <= i < |entries| ==> entries[i].Valid()
    requires IsTail(tail, false)
    ensures PairsFrom(Render(entries, tail), 0) == PairsOf(entries)
  {
    var text := Render(entries, tail);
    assert text[0..] == text;
    PairsOfRendering(text, 0, entries, tail);
  }

  // --- what is no entry ---

  /** What a round without a pair skips: a token that is no name, a name and what follows it, or a name, its equal
      sign and what follows that. */
  lemma StrayTokens(text: seq<byte>, pos: nat)
    requires pos <= |text|
    ensures var (t0, p1) := Lex(text, pos);
            var (t1, p2) := Lex(text, p1);
            var (t2, p3) := Lex(text, p2);
            && (t0.kind == Eof ==> NextPair(text, pos) == NoMore(pos))
            && (t0.kind == Equal || t0.kind == Str ==> NextPair(text, pos) == NextPair(text, p1))
            && (t0.kind == Identifier && t1.kind != Equal ==> NextPair(text, pos) == NextPair(text, p2))
            && (t0.kind == Identifier && t1.kind == Equal && t2.kind != Str ==>
                  NextPair(text, pos) == NextPair(text, p3))
  {
    hide Lex, After, TokenAt;
    ThreeTokens(text, pos);
    AfterTokens(text, pos);
  }

  lemma AfterTokens(text: seq<byte>, pos: nat)
    requires pos <= |text|
    ensures After(text, pos, 1) == Lex(text, pos).1
    ensures After(text, pos, 2) == Lex(text, Lex(text, pos).1).1
  {
    hide Lex;
    assert After(text, pos, 0) == pos;
  }

  /** A word in front of an entry swallows its key, and the pair is lost: parsing goes on behind the entry. */
  lemma StrayWordLosesEntry(text: seq<byte>, pos: nat, gap: seq<byte>, word: seq<byte>, e: Entry)
    requires IsGap(gap, false) && IsKey(word) && e.Valid() && e.before != []
    requires Occurs(text, pos, (gap + word) + e.Text())
    ensures var next := pos + |gap| + |word| + |e.Text()|;
            next <= |text| && NextPair(text, pos) == NextPair(text, next)
  {
    hide Lex, IsGap, Occurs, Entry.Text, IsKey, NextPair;
    var p := pos + |gap| + |word|;
    OccursSplit(text, pos, gap + word, e.Text());
    EntryStartsBlank(text, p, e);
    LexName(text, pos, gap, word);
    EntryTokens(text, p, e);
    StrayTokens(text, pos);
    var q := p + |e.before| + |e.key|;
    StrayTokens(text, q);
    StrayTokens(text, q + |e.beforeEqual| + 1);
  }

  lemma EntryStartsBlank(text: seq<byte>, p: nat, e: Entry)
    requires e.Valid() && e.before != [] && Occurs(text, p, e.Text())
    ensures p < |text| && !IsNameChar(CharAt(text, p))
  {
    hide Occurs;
    OccursAt(text, p, e.Text(), 0);
  }

  /** Any other character ends the parse, as the end of the text does. */
  lemma OtherCharacterEnds(text: seq<byte>, pos: nat, gap: seq<byte>, c: byte)
    requires Occurs(text, pos, gap + [c]) && IsGap(gap, false)
    requires !IsKeyLetter(c) && !IsBlank(c) && c != 0x00 && c != 0x22 && c != 0x23 && c != 0x27 && c != 0x3D
    ensures Lex(text, pos).0.kind == Eof && Lex(text, pos).1 == pos + |gap| + 1
    ensures NextPair(text, pos) == NoMore(pos)
  {
    hide IsGap, SkipSpace, Occurs, NextPair;
    GapThen(text, pos, gap, [c]);
    StrayTokens(text, pos);
  }

  /** A value without its closing quote takes the rest of the text. */
  lemma OpenQuoteTakesRest(text: seq<byte>, pos: nat, gap: seq<byte>, quote: byte, value: seq<byte>)
    requires Occurs(text, pos, gap + ([quote] + value)) && pos + |gap| + 1 + |value| == |text| && IsGap(gap, false)
    requires (quote == 0x22 || quote == 0x27) && quote !in value && 0 !in value
    ensures Lex(text, pos) == (Token(Str, pos + |gap| + 1, |value|), |text|)
  {
    hide IsGap, SkipSpace, Occurs;
    GapThen(text, pos, gap, [quote] + value);
    OccursSplit(text, pos + |gap|, [quote], value);
    QuoteRunsOut(text, pos + |gap| + 1, value, quote);
    LexQuoted(text, pos, pos + |gap|);
  }

  lemma {:induction false} QuoteRunsOut(text: seq<byte>, at: nat, value: seq<byte>, quote: byte)
    requires Occurs(text, at, value) && at + |value| == |text| && quote !in value && 0 !in value
    ensures QuoteEnd(text, at, quote) == |text|
    decreases |value|
  {
    if value != [] {
      assert text[at] == text[at..at + |value|][0] == value[0];
      assert text[at + 1..at + |value|] == value[1..];
      QuoteRunsOut(text, at + 1, value[1..], quote);
    }
  }
}
