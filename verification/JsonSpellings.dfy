/** Section 7 of RFC 8259 on bytes: every way to spell a string in a JSON text, and that the parser reads what
    was spelled. */
module JsonSpellings {
  import opened Bytes
  import opened Options
  import opened Utf8
  import opened JsonStrings
  import opened JsonPieces

  /** The letter of the eight short escapes, and the code point it stands for. */
  const SHORT: seq<(byte, nat)> := [
    (0x22, 0x22), (0x5C, 0x5C), (0x2F, 0x2F), (0x62, 0x08), (0x66, 0x0C), (0x6E, 0x0A), (0x72, 0x0D), (0x74, 0x09)]

  /** The UTF-8 of c itself, a backslash and a letter, or one or two \u escapes. */
  predicate Spells(text: seq<byte>, c: nat) {
    && IsScalar(c)
    && ( || (c >= 0x20 && c != 0x22 && c != 0x5C && text == Encode(c))
         || (|text| == 2 && text[0] == 0x5C && (text[1], c) in SHORT)
         || (c < 0x10000 && SpellsUnit(text, c))
         || (|text| == 12 && c >= 0x10000 && SpellsUnit(text[..6], 0xD800 + (c - 0x10000) / 1024)
             && SpellsUnit(text[6..], 0xDC00 + (c - 0x10000) % 1024)))
  }

  predicate SpellsUnit(text: seq<byte>, u: nat) {
    |text| == 6 && text[0] == 0x5C && text[1] == 0x75 && IsHexOf(text[2..], u)
  }

  function Spelled(texts: seq<seq<byte>>): seq<byte> {
    if texts == [] then [] else texts[0] + Spelled(texts[1..])
  }

  function Plains(s: seq<byte>): (pieces: seq<Piece>)
    ensures |pieces| == |s| && forall i :: 0 <= i < |s| ==> pieces[i] == Plain(s[i])
  {
    seq(|s|, i requires 0 <= i < |s| => Plain(s[i]))
  }

  lemma {:induction false} PlainsMean(s: seq<byte>, rest: seq<Piece>)
    requires forall i :: 0 <= i < |s| ==> s[i] != QUOTE && s[i] != BACKSLASH
    requires AllValid(rest)
    ensures AllValid(Plains(s) + rest) && TextOf(Plains(s)) == s
    ensures Meaning(Plains(s) + rest) == Prepend(s, Meaning(rest))
    decreases |s|
  {
    if s == [] {
      assert Plains(s) + rest == rest;
      NothingInFront(Meaning(rest));
    } else {
      PlainsMean(s[1..], rest);
      assert Plains(s)[1..] == Plains(s[1..]);
      assert (Plains(s) + rest)[1..] == Plains(s[1..]) + rest;
      OneInFront(s, Meaning(rest));
    }
  }

  lemma PlainsText(s: seq<byte>)
    requires forall i :: 0 <= i < |s| ==> s[i] != QUOTE && s[i] != BACKSLASH
    ensures TextOf(Plains(s)) == s
  {
    assert AllValid([]);
    PlainsMean(s, []);
  }

  lemma NothingInFront(o: Option<seq<byte>>)
    ensures Prepend([], o) == o
  {
    if o.Some? {
      assert [] + o.value == o.value;
    }
  }

  lemma OneInFront(s: seq<byte>, o: Option<seq<byte>>)
    requires s != []
    ensures Prepend([s[0]], Prepend(s[1..], o)) == Prepend(s, o)
  {
    if o.Some? {
      assert [s[0]] + (s[1..] + o.value) == s + o.value;
    }
  }

  lemma EncodedIsPlain(c: nat)
    requires 0x20 <= c <= 0x10FFFF && c != 0x22 && c != 0x5C
    ensures forall i :: 0 <= i < |Encode(c)| ==> Encode(c)[i] != QUOTE && Encode(c)[i] != BACKSLASH
  {
  }

  ghost predicate IsSpelling(pieces: seq<Piece>, text: seq<byte>, c: nat)
    requires c <= 0x10FFFF
  {
    && TextOf(pieces) == text
    && forall rest :: AllValid(rest) ==>
         AllValid(pieces + rest) && Meaning(pieces + rest) == Prepend(Encode(c), Meaning(rest))
  }

  lemma UnitPiece(text: seq<byte>, u: nat) returns (unit: Piece)
    requires SpellsUnit(text, u)
    ensures unit.Unit? && IsHexOf(unit.hex, u) && unit.Text() == text
  {
    unit := Unit(text[2..]);
    assert text == [BACKSLASH, LETTER_U] + text[2..];
  }

  lemma ShortPiece(e: byte, c: nat, rest: seq<Piece>)
    requires (e, c) in SHORT && AllValid(rest)
    ensures AllValid([Short(e)] + rest) && Meaning([Short(e)] + rest) == Prepend(Encode(c), Meaning(rest))
  {
    assert ([Short(e)] + rest)[1..] == rest;
  }

  lemma TwoPieces(a: Piece, b: Piece)
    ensures TextOf([a, b]) == a.Text() + b.Text()
  {
    OnePiece(b);
    assert [a, b][1..] == [b];
  }

  /** Every spelling is made of pieces that mean its code point. */
  lemma SpellingIsPieces(text: seq<byte>, c: nat) returns (pieces: seq<Piece>)
    requires Spells(text, c)
    ensures IsSpelling(pieces, text, c)
  {
    hide Encode, Meaning, IsHexOf, Hex4, AllValid, TextOf;
    if c >= 0x20 && c != 0x22 && c != 0x5C && text == Encode(c) {
      EncodedIsPlain(c);
      pieces := Plains(text);
      forall rest | AllValid(rest)
        ensures AllValid(pieces + rest) && Meaning(pieces + rest) == Prepend(Encode(c), Meaning(rest))
      {
        PlainsMean(text, rest);
      }
      PlainsText(text);
    } else if |text| == 2 {
      pieces := [Short(text[1])];
      OnePiece(pieces[0]);
      forall rest | AllValid(rest)
        ensures AllValid(pieces + rest) && Meaning(pieces + rest) == Prepend(Encode(c), Meaning(rest))
      {
        ShortPiece(text[1], c, rest);
      }
    } else {
      if c < 0x10000 {
        var unit := UnitPiece(text, c);
        pieces := [unit];
        OnePiece(unit);
      } else {
        var high := UnitPiece(text[..6], 0xD800 + (c - 0x10000) / 1024);
        var low := UnitPiece(text[6..], 0xDC00 + (c - 0x10000) % 1024);
        pieces := [high, low];
        TwoPieces(high, low);
        assert text == text[..6] + text[6..];
      }
      forall rest | AllValid(rest)
        ensures AllValid(pieces + rest) && Meaning(pieces + rest) == Prepend(Encode(c), Meaning(rest))
      {
        WrittenMeans(pieces, c, rest);
      }
    }
  }

  lemma {:induction false} SpelledIsPieces(texts: seq<seq<byte>>, codes: seq<CodePoint>) returns (pieces: seq<Piece>)
    requires |texts| == |codes| && forall i :: 0 <= i < |codes| ==> Spells(texts[i], codes[i])
    ensures AllValid(pieces) && TextOf(pieces) == Spelled(texts) && Meaning(pieces) == Some(Utf8Of(codes))
    decreases |texts|
  {
    hide Encode, Meaning, Spells;
    if texts == [] {
      pieces := [];
      NothingMeans();
    } else {
      var first := SpellingIsPieces(texts[0], codes[0]);
      var rest := SpelledIsPieces(texts[1..], codes[1..]);
      pieces := first + rest;
      TextOfJoin(first, rest);
    }
  }

  /** However a string is spelled, wherever it stands: the parser reads its UTF-8 and stops behind the closing
      quote. */
  lemma SpelledStringParses(t: seq<byte>, offset: nat, texts: seq<seq<byte>>, codes: seq<CodePoint>)
    requires |texts| == |codes| && forall i :: 0 <= i < |codes| ==> Spells(texts[i], codes[i])
    requires Occurs(t, offset, [0x22] + Spelled(texts) + [0x22])
    ensures StringAtOffset(t, offset) == Some((Utf8Of(codes), offset + |Spelled(texts)| + 2))
  {
    hide Meaning, TextOf, Occurs, StringAtOffset, Spells;
    var pieces := SpelledIsPieces(texts, codes);
    LiteralParses(t, offset, pieces);
  }

  /** An ideograph by one unit, with its bytes. */
  lemma IdeographExample()
    ensures Spells([0x5C, 0x75, 0x34, 0x45, 0x32, 0x64], 0x4E2D)            // \u4E2d
    ensures Encode(0x4E2D) == [0xE4, 0xB8, 0xAD]
  {
    assert [0x5C, 0x75, 0x34, 0x45, 0x32, 0x64][2..] == [0x34, 0x45, 0x32, 0x64];
  }

  /** A code point beyond the basic plane by a pair of units, \uD83D\ude00, with its bytes. */
  lemma PairExample()
    ensures Spells([0x5C, 0x75, 0x44, 0x38, 0x33, 0x44] + [0x5C, 0x75, 0x64, 0x65, 0x30, 0x30], 0x1F600)
    ensures Encode(0x1F600) == [0xF0, 0x9F, 0x98, 0x80]
  {
    hide Spells, SpellsUnit;
    var high, low := [0x5C, 0x75, 0x44, 0x38, 0x33, 0x44], [0x5C, 0x75, 0x64, 0x65, 0x30, 0x30];
    SurrogateExamples(high, low);
    PairSpells(high, low, 0x1F600);
  }

  lemma SurrogateExamples(high: seq<byte>, low: seq<byte>)
    requires high == [0x5C, 0x75, 0x44, 0x38, 0x33, 0x44] && low == [0x5C, 0x75, 0x64, 0x65, 0x30, 0x30]
    ensures SpellsUnit(high, 0xD83D) && SpellsUnit(low, 0xDE00)
  {
    assert high[2..] == [0x44, 0x38, 0x33, 0x44] && low[2..] == [0x64, 0x65, 0x30, 0x30];
  }

  lemma PairSpells(high: seq<byte>, low: seq<byte>, c: nat)
    requires 0x10000 <= c <= 0x10FFFF && |high| == |low| == 6
    requires SpellsUnit(high, 0xD800 + (c - 0x10000) / 1024) && SpellsUnit(low, 0xDC00 + (c - 0x10000) % 1024)
    ensures Spells(high + low, c)
  {
    hide SpellsUnit, Encode;
    assert (high + low)[..6] == high && (high + low)[6..] == low;
  }
}
