/** Two escapers and the parser they must agree with: print_string_ptr (cJSON.c) and escape_string
    (code/hand_buffer.c). */
module JsonEscapes {
  import opened Bytes
  import opened Options
  import opened JsonStrings
  import opened JsonPieces
  import opened GrowableBuffers

  function HexChar(d: nat): (b: byte)
    requires d < 16
    ensures IsHex(b) && HexDigit(b) == d
  {
    if d < 10 then 0x30 + d else 0x61 + (d - 10)
  }

  // --- what each escaper writes for one byte, as a piece ---

  /** print_string_ptr: quotes, backslashes and control characters are escaped. */
  function PrintPiece(b: byte): Piece {
    if b == QUOTE || b == BACKSLASH then Short(b)
    else if b == 0x08 then Short(LETTER_B)
    else if b == 0x0C then Short(LETTER_F)
    else if b == LF then Short(LETTER_N)
    else if b == CR then Short(LETTER_R)
    else if b == TAB then Short(LETTER_T)
    else if b < 32 then Unit([0x30, 0x30, HexChar(b / 16), HexChar(b % 16)])
    else Plain(b)
  }

  /** escape_string: slashes too, but no other control characters than the five with a short escape. */
  function EscapePiece(b: byte): Piece {
    if b == SLASH then Short(b)
    else if b < 32 && PrintPiece(b).Unit? then Plain(b)
    else PrintPiece(b)
  }

  /** A piece that means the byte b alone. */
  ghost predicate Means(piece: Piece, b: byte) {
    && piece.Valid()
    && match piece
       case Plain(p) => p == b
       case Short(e) => ShortEscape(e) == b
       case Unit(_) => piece.Code() == b < 0x80
  }

  /** print_string_ptr, byte for byte. */
  lemma PrintedByte(b: byte)
    ensures PrintPiece(b).Text() ==
            if b == 0x22 then [0x5C, 0x22] else if b == 0x5C then [0x5C, 0x5C]
            else if b == 0x08 then [0x5C, 0x62] else if b == 0x0C then [0x5C, 0x66]
            else if b == 0x0A then [0x5C, 0x6E] else if b == 0x0D then [0x5C, 0x72]
            else if b == 0x09 then [0x5C, 0x74]
            else if b < 0x20 then [0x5C, 0x75, 0x30, 0x30, LOWER_DIGITS[b / 16], LOWER_DIGITS[b % 16]]
            else [b]
  {
  }

  /** escape_string, byte for byte. */
  lemma EscapedByte(b: byte)
    ensures EscapePiece(b).Text() ==
            if b == 0x22 then [0x5C, 0x22] else if b == 0x5C then [0x5C, 0x5C] else if b == 0x2F then [0x5C, 0x2F]
            else if b == 0x08 then [0x5C, 0x62] else if b == 0x0C then [0x5C, 0x66]
            else if b == 0x0A then [0x5C, 0x6E] else if b == 0x0D then [0x5C, 0x72]
            else if b == 0x09 then [0x5C, 0x74]
            else [b]
  {
  }

  lemma PrintPieceMeans(b: byte)
    requires b != 0
    ensures Means(PrintPiece(b), b) && Means(EscapePiece(b), b)
  {
    var piece := PrintPiece(b);
    if piece.Unit? {
      assert HexDigit(0x30) == 0;
      assert piece.Code() == b / 16 * 16 + b % 16;
    }
  }

  function PrintPieces(s: seq<byte>): (pieces: seq<Piece>)
    ensures |pieces| == |s| && forall i :: 0 <= i < |s| ==> pieces[i] == PrintPiece(s[i])
  {
    if s == [] then [] else [PrintPiece(s[0])] + PrintPieces(s[1..])
  }

  function EscapePieces(s: seq<byte>): (pieces: seq<Piece>)
    ensures |pieces| == |s| && forall i :: 0 <= i < |s| ==> pieces[i] == EscapePiece(s[i])
  {
    if s == [] then [] else [EscapePiece(s[0])] + EscapePieces(s[1..])
  }

  lemma {:induction false} MeaningOfBytes(s: seq<byte>, pieces: seq<Piece>)
    requires |pieces| == |s| && forall i :: 0 <= i < |s| ==> Means(pieces[i], s[i])
    ensures AllValid(pieces) && Meaning(pieces) == Some(s)
    decreases |s|
  {
    hide Hex4, AllHex, ShortEscape;
    if s != [] {
      assert Means(pieces[0], s[0]);
      MeaningOfBytes(s[1..], pieces[1..]);
      assert s == [s[0]] + s[1..];
    }
  }

  /** The escaped text without its quotes, and the printed string with them. */
  function PrintedText(s: seq<byte>): seq<byte> { TextOf(PrintPieces(s)) }

  function PrintedString(s: seq<byte>): seq<byte> { [QUOTE] + PrintedText(s) + [QUOTE] }

  function EscapedText(s: seq<byte>): seq<byte> { TextOf(EscapePieces(s)) }

  /** The pieces of a printed string mean the string. */
  lemma PrintPiecesMean(s: seq<byte>)
    requires 0 !in s
    ensures AllValid(PrintPieces(s)) && Meaning(PrintPieces(s)) == Some(s)
  {
    hide Meaning;
    forall i | 0 <= i < |s| ensures Means(PrintPieces(s)[i], s[i]) {
      PrintPieceMeans(s[i]);
    }
    MeaningOfBytes(s, PrintPieces(s));
  }

  /** Parsing a printed string gives it back and stops behind its closing quote. */
  lemma PrintedStringParses(t: seq<byte>, offset: nat, s: seq<byte>)
    requires 0 !in s && Occurs(t, offset, PrintedString(s))
    ensures StringAtOffset(t, offset) == Some((s, offset + |PrintedString(s)|))
  {
    hide Meaning, TextOf;
    PrintPiecesMean(s);
    LiteralParses(t, offset, PrintPieces(s));
  }

  /** So does parsing the quoted output of escape_string. */
  lemma EscapedTextParses(t: seq<byte>, offset: nat, s: seq<byte>)
    requires 0 !in s && Occurs(t, offset, [QUOTE] + EscapedText(s) + [QUOTE])
    ensures StringAtOffset(t, offset) == Some((s, offset + |EscapedText(s)| + 2))
  {
    hide Meaning, TextOf;
    forall i | 0 <= i < |s| ensures Means(EscapePieces(s)[i], s[i]) {
      PrintPieceMeans(s[i]);
    }
    MeaningOfBytes(s, EscapePieces(s));
    LiteralParses(t, offset, EscapePieces(s));
  }

  lemma TextOfPush(pieces: seq<Piece>, piece: Piece)
    ensures TextOf(pieces + [piece]) == TextOf(pieces) + piece.Text()
  {
    hide TextOf, Piece.Text;
    TextOfJoin(pieces, [piece]);
    OnePiece(piece);
  }

  /** print_string_ptr's first pass: the characters that a byte adds when it is escaped. */
  function Added(b: byte): nat {
    if b == QUOTE || b == BACKSLASH || b == 0x08 || b == 0x0C || b == LF || b == CR || b == TAB then 1
    else if b < 32 then 5
    else 0
  }

  lemma PrintPieceLength(b: byte)
    ensures |PrintPiece(b).Text()| == 1 + Added(b)
    ensures Added(b) == 0 ==> PrintPiece(b).Text() == [b]
  {
  }

  lemma PrintedStep(s: seq<byte>, n: nat)
    requires n < |s|
    ensures PrintedText(s[..n + 1]) == PrintedText(s[..n]) + PrintPiece(s[n]).Text()
  {
    hide TextOf, PrintPiece, Piece.Text;
    assert PrintPieces(s[..n + 1]) == PrintPieces(s[..n]) + [PrintPiece(s[n])];
    TextOfPush(PrintPieces(s[..n]), PrintPiece(s[n]));
  }

  /** What is printed of a prefix is a prefix of what is printed. */
  lemma {:induction false} PrintedPrefix(s: seq<byte>, n: nat)
    requires n <= |s|
    ensures PrintedText(s[..n]) <= PrintedText(s)
    decreases |s| - n
  {
    hide PrintedText, PrintPiece;
    if n < |s| {
      PrintedStep(s, n);
      PrintedPrefix(s, n + 1);
    } else {
      assert s[..n] == s;
    }
  }

  /** The first n bytes, and one more. */
  lemma EscapedStep(s: seq<byte>, n: nat)
    requires n < |s|
    ensures EscapedText(s[..n + 1]) == EscapedText(s[..n]) + EscapePiece(s[n]).Text()
    ensures |EscapedText(s[..n])| <= 6 * n
  {
    hide TextOf, EscapePiece, Piece.Text;
    assert EscapePieces(s[..n + 1]) == EscapePieces(s[..n]) + [EscapePiece(s[n])];
    TextOfPush(EscapePieces(s[..n]), EscapePiece(s[n]));
    EscapePiecesAreShort(s[..n]);
    TextOfAtMost(EscapePieces(s[..n]));
  }

  lemma EscapePiecesAreShort(s: seq<byte>)
    ensures forall i :: 0 <= i < |s| ==> EscapePieces(s)[i].Unit? ==> |EscapePieces(s)[i].hex| == 4
  {
  }

  lemma {:induction false} TextOfAtMost(pieces: seq<Piece>)
    requires forall i :: 0 <= i < |pieces| ==> pieces[i].Unit? ==> |pieces[i].hex| == 4
    ensures |TextOf(pieces)| <= 6 * |pieces|
  {
    if pieces != [] {
      TextOfAtMost(pieces[1..]);
    }
  }

  method WriteEscaped(result: GrowableBuffer, c: byte)
    requires result.Valid() && result.used + 6 < SIZE_LIMIT
    modifies result, result.memory
    ensures result.Valid() && result.Content() == old(result.Content()) + EscapePiece(c).Text()
    ensures result.memory == old(result.memory) || fresh(result.memory)
  {
    hide EscapePiece, Piece.Text;
    PieceTexts(c);
    if c == QUOTE {
      result.Write([BACKSLASH, QUOTE]);
    } else if c == BACKSLASH {
      result.Write([BACKSLASH, BACKSLASH]);
    } else if c == SLASH {
      result.Write([BACKSLASH, SLASH]);
    } else if c == 0x08 {
      result.Write([BACKSLASH, LETTER_B]);
    } else if c == 0x0C {
      result.Write([BACKSLASH, LETTER_F]);
    } else if c == LF {
      result.Write([BACKSLASH, LETTER_N]);
    } else if c == CR {
      result.Write([BACKSLASH, LETTER_R]);
    } else if c == TAB {
      result.Write([BACKSLASH, LETTER_T]);
    } else {
      result.Write([c]);
    }
  }

  method EscapeString(s: seq<byte>) returns (result: GrowableBuffer)
    requires 0 !in s && 6 * |s| + 6 < SIZE_LIMIT
    ensures fresh(result) && result.Valid() && result.Content() == EscapedText(s)
  {
    hide EscapedText, EscapePiece;
    result := new GrowableBuffer();
    NothingEscaped(s);
    for i := 0 to |s|
      invariant fresh(result) && fresh(result.memory) && result.Valid()
      invariant result.Content() == EscapedText(s[..i])
    {
      EscapedStep(s, i);
      WriteEscaped(result, s[i]);
    }
    assert s[..|s|] == s;
  }

  lemma NothingEscaped(s: seq<byte>)
    ensures EscapedText(s[..0]) == []
  {
  }

  lemma PieceTexts(b: byte)
    ensures EscapePiece(b).Text() ==
            if b == QUOTE || b == BACKSLASH || b == SLASH then [BACKSLASH, b]
            else if b == 0x08 then [BACKSLASH, LETTER_B]
            else if b == 0x0C then [BACKSLASH, LETTER_F]
            else if b == LF then [BACKSLASH, LETTER_N]
            else if b == CR then [BACKSLASH, LETTER_R]
            else if b == TAB then [BACKSLASH, LETTER_T]
            else [b]
  {
  }
}
