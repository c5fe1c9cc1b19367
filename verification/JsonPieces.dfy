/** What a JSON string literal means (section 7 of RFC 8259): pieces of text, short escapes and
    \uXXXX units. cJSON's two passes give every literal this meaning; where RFC 8259 wants four hex
    digits they take any four bytes but quotes and backslashes, and read them as zero. */
module JsonPieces {
  import opened Bytes
  import opened Options
  import opened Utf8
  import opened JsonStrings

  datatype Piece = Plain(b: byte) | Short(e: byte) | Unit(hex: seq<byte>)
  {
    predicate Valid() {
      match this
      case Plain(b) => b != QUOTE && b != BACKSLASH
      case Short(e) =>
        || e == 0x22 || e == 0x5C || e == 0x2F || e == 0x62 || e == 0x66 || e == 0x6E || e == 0x72 || e == 0x74
      case Unit(hex) => |hex| == 4 && forall k :: 0 <= k < 4 ==> hex[k] != QUOTE && hex[k] != BACKSLASH
    }

    function Text(): seq<byte> {
      match this
      case Plain(b) => [b]
      case Short(e) => [BACKSLASH, e]
      case Unit(hex) => [BACKSLASH, LETTER_U] + hex
    }

    /** The UTF-16 code unit of a \u escape. */
    function Code(): nat
      requires Unit? && |hex| == 4
    {
      Hex4(hex)
    }
  }

  ghost predicate AllValid(pieces: seq<Piece>) { forall i :: 0 <= i < |pieces| ==> pieces[i].Valid() }

  function TextOf(pieces: seq<Piece>): seq<byte> {
    if pieces == [] then [] else pieces[0].Text() + TextOf(pieces[1..])
  }

  lemma OnePiece(piece: Piece)
    ensures TextOf([piece]) == piece.Text()
  {
    hide Piece.Text;
    assert [piece][1..] == [] && TextOf([]) == [];
    assert piece.Text() + [] == piece.Text();
  }

  lemma FirstPiece(pieces: seq<Piece>)
    ensures TextOf(pieces) == if pieces == [] then [] else pieces[0].Text() + TextOf(pieces[1..])
  {
  }

  lemma JoinTail<T>(a: seq<T>, b: seq<T>)
    requires a != []
    ensures a + b != [] && (a + b)[0] == a[0] && (a + b)[1..] == a[1..] + b
  {
  }

  lemma {:induction false} TextOfJoin(a: seq<Piece>, b: seq<Piece>)
    ensures TextOf(a + b) == TextOf(a) + TextOf(b)
  {
    hide TextOf, Piece.Text;
    FirstPiece(a);
    if a == [] {
      assert a + b == b && [] + TextOf(b) == TextOf(b);
    } else {
      TextOfJoin(a[1..], b);
      JoinTail(a, b);
      FirstPiece(a + b);
      ConcatAssoc(a[0].Text(), TextOf(a[1..]), TextOf(b));
    }
  }

  /** The bytes meant, in UTF-8; none when a surrogate stands alone. */
  function Meaning(pieces: seq<Piece>): Option<seq<byte>>
    requires AllValid(pieces)
  {
    if pieces == [] then Some([])
    else
      match pieces[0]
      case Plain(b) => Prepend([b], Meaning(pieces[1..]))
      case Short(e) => Prepend([ShortEscape(e)], Meaning(pieces[1..]))
      case Unit(_) =>
        var u := pieces[0].Code();
        if IsLow(u) then None
        else if IsHigh(u) then
          if |pieces| > 1 && pieces[1].Unit? && IsLow(pieces[1].Code())
          then Prepend(Encode(Combine(u, pieces[1].Code())), Meaning(pieces[2..]))
          else None
        else Prepend(Encode(u), Meaning(pieces[1..]))
  }

  // --- the first pass ends at the closing quote and not before ---

  lemma {:induction false} ScanPieces(t: seq<byte>, p: nat, pieces: seq<Piece>)
    requires AllValid(pieces) && Occurs(t, p, TextOf(pieces) + [QUOTE])
    ensures ScanString(t, p).Some? && ScanString(t, p).value.0 == p + |TextOf(pieces)|
    decreases |pieces|
  {
    if pieces == [] {
      OccursAt(t, p, [QUOTE], 0);
    } else {
      var head, rest := pieces[0].Text(), TextOf(pieces[1..]) + [QUOTE];
      assert TextOf(pieces) + [QUOTE] == head + rest;
      OccursSplit(t, p, head, rest);
      ScanPieces(t, p + |head|, pieces[1..]);
      ScanOnePiece(t, p, pieces[0]);
    }
  }

  lemma ScanOnePiece(t: seq<byte>, p: nat, piece: Piece)
    requires piece.Valid() && Occurs(t, p, piece.Text())
    requires ScanString(t, p + |piece.Text()|).Some?
    ensures ScanString(t, p).Some? && ScanString(t, p).value.0 == ScanString(t, p + |piece.Text()|).value.0
  {
    OccursAt(t, p, piece.Text(), 0);
    if !piece.Plain? {
      OccursAt(t, p, piece.Text(), 1);
    }
    if piece.Unit? {
      assert ScanString(t, p + 2).Some? && ScanString(t, p + 2).value.0 == ScanString(t, p + 6).value.0 by {
        HexIsNoQuote(t, p, piece, 2);
        HexIsNoQuote(t, p, piece, 3);
        HexIsNoQuote(t, p, piece, 4);
        HexIsNoQuote(t, p, piece, 5);
        assert ScanString(t, p + 5) == ScanString(t, p + 6);
        assert ScanString(t, p + 4) == ScanString(t, p + 5);
        assert ScanString(t, p + 3) == ScanString(t, p + 4);
      }
    }
  }

  lemma HexIsNoQuote(t: seq<byte>, p: nat, piece: Piece, k: nat)
    requires piece.Valid() && piece.Unit? && Occurs(t, p, piece.Text()) && 2 <= k < 6
    ensures p + k < |t| && t[p + k] != QUOTE && t[p + k] != BACKSLASH
  {
    OccursAt(t, p, piece.Text(), k);
    assert piece.Text()[k] == piece.hex[k - 2];
  }

  // --- the second pass gives the meaning ---

  lemma UnitAt(t: seq<byte>, p: nat, piece: Piece)
    requires piece.Valid() && piece.Unit? && Occurs(t, p, piece.Text())
    ensures p + 6 <= |t| && t[p] == BACKSLASH && t[p + 1] == LETTER_U && t[p + 2..p + 6] == piece.hex
  {
    assert piece.Text() == [BACKSLASH, LETTER_U] + piece.hex;
    OccursAt(t, p, piece.Text(), 0);
    OccursAt(t, p, piece.Text(), 1);
    OccursSplit(t, p, [BACKSLASH, LETTER_U], piece.hex);
  }

  /** After a high surrogate only the escape of a low one will do. */
  lemma LiteralOfPair(t: seq<byte>, p: nat, end: nat, pieces: seq<Piece>)
    requires AllValid(pieces) && pieces != [] && pieces[0].Unit? && IsHigh(pieces[0].Code())
    requires Occurs(t, p, TextOf(pieces)) && end == p + |TextOf(pieces)| < |t|
    ensures Literal(t, p, end) ==
            if |pieces| > 1 && pieces[1].Unit? && IsLow(pieces[1].Code())
            then (12, Encode(Combine(pieces[0].Code(), pieces[1].Code()))) else (0, [])
  {
    hide Encode, Hex4, Occurs, Combine, AllHex;
    OccursSplit(t, p, pieces[0].Text(), TextOf(pieces[1..]));
    UnitAt(t, p, pieces[0]);
    if |pieces| > 1 {
      var next := pieces[1];
      assert TextOf(pieces[1..]) == next.Text() + TextOf(pieces[1..][1..]);
      OccursSplit(t, p + 6, next.Text(), TextOf(pieces[1..][1..]));
      OccursAt(t, p + 6, next.Text(), 0);
      if next.Short? {
        OccursAt(t, p + 6, next.Text(), 1);
      } else if next.Unit? {
        UnitAt(t, p + 6, next);
      }
    }
  }

  /** Pieces that the decoder takes in one step: one, or the two of a surrogate pair. */
  predicate StartsWithPair(pieces: seq<Piece>)
    requires AllValid(pieces)
  {
    && |pieces| > 1 && pieces[0].Unit? && IsHigh(pieces[0].Code())
    && pieces[1].Unit? && IsLow(pieces[1].Code())
  }

  lemma HeadAndRest(t: seq<byte>, p: nat, pieces: seq<Piece>)
    requires AllValid(pieces) && pieces != [] && Occurs(t, p, TextOf(pieces))
    ensures var n := |pieces[0].Text()|;
            && pieces[0].Valid() && Occurs(t, p, pieces[0].Text())
            && AllValid(pieces[1..]) && Occurs(t, p + n, TextOf(pieces[1..]))
            && |TextOf(pieces)| == n + |TextOf(pieces[1..])| && (pieces[0].Unit? ==> n == 6)
  {
    hide Occurs, AllHex;
    OccursSplit(t, p, pieces[0].Text(), TextOf(pieces[1..]));
  }

  lemma {:induction false} DecodePieces(t: seq<byte>, p: nat, end: nat, pieces: seq<Piece>)
    requires AllValid(pieces) && Occurs(t, p, TextOf(pieces)) && end == p + |TextOf(pieces)| < |t|
    ensures Decode(t, p, end) == Meaning(pieces)
    decreases |pieces|
  {
    hide Literal, Decode, Meaning, Occurs, TextOf, Piece.Text, Piece.Valid, Piece.Code, AllValid;
    if pieces == [] {
      DecodeNothing(t, p);
    } else {
      HeadAndRest(t, p, pieces);
      var rest := pieces[1..];
      DecodePieces(t, p + |pieces[0].Text()|, end, rest);
      if !pieces[0].Unit? {
        DecodeOneByte(t, p, end, pieces);
      } else if StartsWithPair(pieces) {
        HeadAndRest(t, p + 6, rest);
        assert rest[1..] == pieces[2..];
        DecodePieces(t, p + 12, end, pieces[2..]);
        DecodeOneUnit(t, p, end, pieces);
      } else {
        DecodeOneUnit(t, p, end, pieces);
      }
    }
  }

  lemma DecodeNothing(t: seq<byte>, p: nat)
    requires p + |TextOf([])| < |t|
    ensures TextOf([]) == [] && Decode(t, p, p) == Meaning([])
  {
  }

  lemma DecodeOneByte(t: seq<byte>, p: nat, end: nat, pieces: seq<Piece>)
    requires AllValid(pieces) && pieces != [] && !pieces[0].Unit?
    requires Occurs(t, p, pieces[0].Text()) && p + |pieces[0].Text()| <= end < |t|
    requires Decode(t, p + |pieces[0].Text()|, end) == Meaning(pieces[1..])
    ensures Decode(t, p, end) == Meaning(pieces)
  {
    hide Literal, Occurs, AllHex, Hex4, ShortEscape, Encode;
    assert pieces[0].Valid();
    OccursAt(t, p, pieces[0].Text(), 0);
    if pieces[0].Short? {
      OccursAt(t, p, pieces[0].Text(), 1);
      ShortMeans(pieces[0].e);
      DecodeShort(t, p, end);
    } else {
      DecodePlain(t, p, end);
    }
  }

  lemma ShortMeans(e: byte)
    ensures Short(e).Valid() <==> ShortEscape(e) != 0
  {
  }

  lemma DecodePlain(t: seq<byte>, p: nat, end: nat)
    requires p < end < |t| && t[p] != BACKSLASH
    ensures Decode(t, p, end) == Prepend([t[p]], Decode(t, p + 1, end))
  {
  }

  lemma DecodeShort(t: seq<byte>, p: nat, end: nat)
    requires p + 1 < end < |t| && t[p] == BACKSLASH && ShortEscape(t[p + 1]) != 0
    ensures Decode(t, p, end) == Prepend([ShortEscape(t[p + 1])], Decode(t, p + 2, end))
  {
    hide Literal;
  }

  lemma DecodeOneUnit(t: seq<byte>, p: nat, end: nat, pieces: seq<Piece>)
    requires AllValid(pieces) && pieces != [] && pieces[0].Unit?
    requires Occurs(t, p, TextOf(pieces)) && end == p + |TextOf(pieces)| < |t|
    requires Decode(t, p + 6, end) == Meaning(pieces[1..])
    requires StartsWithPair(pieces) ==> Decode(t, p + 12, end) == Meaning(pieces[2..])
    ensures Decode(t, p, end) == Meaning(pieces)
  {
    hide Encode, Hex4, Literal;
    OccursSplit(t, p, pieces[0].Text(), TextOf(pieces[1..]));
    UnitAt(t, p, pieces[0]);
    DecodeUnit(t, p, end, pieces);
  }

  lemma DecodeUnit(t: seq<byte>, p: nat, end: nat, pieces: seq<Piece>)
    requires AllValid(pieces) && pieces != [] && pieces[0].Unit?
    requires Occurs(t, p, TextOf(pieces)) && end == p + |TextOf(pieces)| < |t|
    ensures var u := pieces[0].Code();
            Literal(t, p, end) ==
            if IsLow(u) then (0, [])
            else if !IsHigh(u) then (6, Encode(u))
            else if |pieces| > 1 && pieces[1].Unit? && IsLow(pieces[1].Code())
            then (12, Encode(Combine(u, pieces[1].Code()))) else (0, [])
  {
    hide Encode, Hex4;
    if IsHigh(pieces[0].Code()) {
      LiteralOfPair(t, p, end, pieces);
    } else {
      OccursSplit(t, p, pieces[0].Text(), TextOf(pieces[1..]));
      UnitAt(t, p, pieces[0]);
    }
  }

  // --- what has no meaning ---

  predicate IsHighUnit(piece: Piece)
    requires piece.Valid()
  {
    piece.Unit? && IsHigh(piece.Code())
  }

  predicate IsLowUnit(piece: Piece)
    requires piece.Valid()
  {
    piece.Unit? && IsLow(piece.Code())
  }

  /** A high surrogate with no low one behind it, or a low one with no high one in front. */
  predicate Lone(pieces: seq<Piece>, i: nat)
    requires AllValid(pieces) && i < |pieces|
  {
    || (IsHighUnit(pieces[i]) && !(i + 1 < |pieces| && IsLowUnit(pieces[i + 1])))
    || (IsLowUnit(pieces[i]) && !(i > 0 && IsHighUnit(pieces[i - 1])))
  }

  ghost predicate HasLone(pieces: seq<Piece>)
    requires AllValid(pieces)
  {
    exists i :: 0 <= i < |pieces| && Lone(pieces, i)
  }

  /** Behind a piece that is no high surrogate, loneliness does not depend on what is in front. */
  lemma HasLoneBehind(pieces: seq<Piece>, n: nat)
    requires AllValid(pieces) && 0 < n <= |pieces| && !IsHighUnit(pieces[n - 1])
    requires forall i :: 0 <= i < n ==> !Lone(pieces, i)
    ensures HasLone(pieces) <==> HasLone(pieces[n..])
  {
    hide Piece.Valid, IsHighUnit, IsLowUnit;
    var rest := pieces[n..];
    assert forall i :: 0 <= i < |rest| ==> rest[i] == pieces[n + i];
    forall i | 0 <= i < |rest| ensures Lone(rest, i) == Lone(pieces, n + i) {
    }
    if HasLone(pieces) {
      var i :| 0 <= i < |pieces| && Lone(pieces, i);
      assert Lone(rest, i - n);
    }
  }

  /** Pieces mean nothing if and only if one of their surrogates stands alone. */
  lemma {:induction false} NoMeaningIffLone(pieces: seq<Piece>)
    requires AllValid(pieces)
    ensures Meaning(pieces).None? <==> HasLone(pieces)
    decreases |pieces|
  {
    hide Hex4, Encode, ShortEscape;
    if pieces == [] {
    } else if StartsWithPair(pieces) {
      assert !IsHighUnit(pieces[1]) && !Lone(pieces, 0) && !Lone(pieces, 1);
      NoMeaningIffLone(pieces[2..]);
      HasLoneBehind(pieces, 2);
    } else if IsHighUnit(pieces[0]) || IsLowUnit(pieces[0]) {
      assert Lone(pieces, 0);
    } else {
      NoMeaningIffLone(pieces[1..]);
      HasLoneBehind(pieces, 1);
    }
  }

  /** A quoted literal parses to its meaning and up to its closing quote; it is refused exactly when
      a surrogate escape is not part of a pair. */
  lemma LiteralParses(t: seq<byte>, offset: nat, pieces: seq<Piece>)
    requires AllValid(pieces) && Occurs(t, offset, [QUOTE] + TextOf(pieces) + [QUOTE])
    ensures Meaning(pieces).None? <==> HasLone(pieces)
    ensures StringAtOffset(t, offset) ==
            if HasLone(pieces) then None else Some((Meaning(pieces).value, offset + |TextOf(pieces)| + 2))
  {
    hide Decode, ScanString, Meaning, TextOf, HasLone;
    var text := TextOf(pieces);
    assert [QUOTE] + text + [QUOTE] == [QUOTE] + (text + [QUOTE]);
    OccursSplit(t, offset, [QUOTE], text + [QUOTE]);
    OccursAt(t, offset, [QUOTE], 0);
    OccursSplit(t, offset + 1, text, [QUOTE]);
    OccursAt(t, offset + 1 + |text|, [QUOTE], 0);
    ScanPieces(t, offset + 1, pieces);
    DecodePieces(t, offset + 1, offset + 1 + |text|, pieces);
    NoMeaningIffLone(pieces);
  }

  // --- code points written as escapes ---

  /** A code point other than a surrogate. */
  predicate IsScalar(c: nat) { c <= 0x10FFFF && !(0xD800 <= c <= 0xDFFF) }

  const LOWER_DIGITS: seq<byte> :=
    [0x30, 0x31, 0x32, 0x33, 0x34, 0x35, 0x36, 0x37, 0x38, 0x39, 0x61, 0x62, 0x63, 0x64, 0x65, 0x66]

  const UPPER_DIGITS: seq<byte> :=
    [0x30, 0x31, 0x32, 0x33, 0x34, 0x35, 0x36, 0x37, 0x38, 0x39, 0x41, 0x42, 0x43, 0x44, 0x45, 0x46]

  /** b is the character of d, in either case. */
  predicate IsDigitOf(b: byte, d: nat) { d < 16 && (b == LOWER_DIGITS[d] || b == UPPER_DIGITS[d]) }

  /** The four hex digits of u, the highest first. */
  predicate IsHexOf(hex: seq<byte>, u: nat) {
    && |hex| == 4 && u < 0x10000
    && IsDigitOf(hex[0], u / 4096) && IsDigitOf(hex[1], u / 256 % 16)
    && IsDigitOf(hex[2], u / 16 % 16) && IsDigitOf(hex[3], u % 16)
  }

  lemma DigitHasValue(b: byte, d: nat)
    requires IsDigitOf(b, d)
    ensures IsHex(b) && HexDigit(b) == d && b != QUOTE && b != BACKSLASH
  {
  }

  lemma HexHasValue(hex: seq<byte>, u: nat)
    requires IsHexOf(hex, u)
    ensures Unit(hex).Valid() && Unit(hex).Code() == u
  {
    hide IsDigitOf, HexDigit, IsHex;
    DigitHasValue(hex[0], u / 4096);
    DigitHasValue(hex[1], u / 256 % 16);
    DigitHasValue(hex[2], u / 16 % 16);
    DigitHasValue(hex[3], u % 16);
    assert u / 16 == u / 256 * 16 + u / 16 % 16;
    assert u / 256 == u / 4096 * 16 + u / 256 % 16;
    assert AllHex(hex);
  }

  /** units is one way to write the code point: one unit, or a surrogate pair (RFC 2781). */
  predicate Writes(units: seq<Piece>, c: nat) {
    && IsScalar(c)
    && if c < 0x10000 then |units| == 1 && units[0].Unit? && IsHexOf(units[0].hex, c)
       else
         && |units| == 2 && units[0].Unit? && units[1].Unit?
         && IsHexOf(units[0].hex, 0xD800 + (c - 0x10000) / 1024)
         && IsHexOf(units[1].hex, 0xDC00 + (c - 0x10000) % 1024)
  }

  /** Such units, in front of other pieces. */
  lemma WrittenMeans(units: seq<Piece>, c: nat, rest: seq<Piece>)
    requires Writes(units, c) && AllValid(rest)
    ensures AllValid(units + rest) && Meaning(units + rest) == Prepend(Encode(c), Meaning(rest))
  {
    hide Encode, Hex4, IsHexOf;
    var all := units + rest;
    if c < 0x10000 {
      HexHasValue(units[0].hex, c);
      assert all[0] == units[0] && all[1..] == rest;
    } else {
      var high, low := 0xD800 + (c - 0x10000) / 1024, 0xDC00 + (c - 0x10000) % 1024;
      HexHasValue(units[0].hex, high);
      HexHasValue(units[1].hex, low);
      assert all[0] == units[0] && all[1] == units[1] && all[2..] == rest;
      assert Combine(high, low) == c;
    }
  }

  function Flatten(written: seq<seq<Piece>>): seq<Piece> {
    if written == [] then [] else written[0] + Flatten(written[1..])
  }

  type CodePoint = c: nat | c <= 0x10FFFF

  function Utf8Of(codes: seq<CodePoint>): seq<byte> {
    if codes == [] then [] else Encode(codes[0]) + Utf8Of(codes[1..])
  }

  lemma NothingMeans()
    ensures Meaning([]) == Some([])
  {
  }

  /** Any sequence of code points, each written by its escapes in any case of digits, is decoded to
      its UTF-8. */
  lemma {:induction false} EscapedCodePointsMeanUtf8(written: seq<seq<Piece>>, codes: seq<CodePoint>)
    requires |written| == |codes| && forall i :: 0 <= i < |codes| ==> Writes(written[i], codes[i])
    ensures AllValid(Flatten(written))
    ensures Meaning(Flatten(written)) == Some(Utf8Of(codes))
  {
    hide Encode, Meaning;
    if written == [] {
      NothingMeans();
    } else {
      EscapedCodePointsMeanUtf8(written[1..], codes[1..]);
      assert Writes(written[0], codes[0]);
      WrittenMeans(written[0], codes[0], Flatten(written[1..]));
    }
  }

  /** The quoted text of such escapes parses to the UTF-8 of the code points. */
  lemma EscapedCodePointsParse(t: seq<byte>, offset: nat, written: seq<seq<Piece>>, codes: seq<CodePoint>)
    requires |written| == |codes| && forall i :: 0 <= i < |codes| ==> Writes(written[i], codes[i])
    requires Occurs(t, offset, [QUOTE] + TextOf(Flatten(written)) + [QUOTE])
    ensures StringAtOffset(t, offset) == Some((Utf8Of(codes), offset + |TextOf(Flatten(written))| + 2))
  {
    hide Meaning, TextOf, Occurs, StringAtOffset;
    EscapedCodePointsMeanUtf8(written, codes);
    LiteralParses(t, offset, Flatten(written));
  }
}
