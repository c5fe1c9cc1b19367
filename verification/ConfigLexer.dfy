/** The config lexer and its four-slot lookahead ring (code/hand_config.c). Pointers into the
    content are modelled as offsets. */
module ConfigLexer {
  import opened Bytes

  const HASH: byte := 0x23
  const APOSTROPHE: byte := 0x27
  const EQUAL: byte := 0x3D

  datatype Kind = Eof | Identifier | Equal | Str

  /** An unrecognised character is a token of kind Eof too. */
  datatype Token = Token(kind: Kind, start: nat, len: nat)

  const NO_TOKEN := Token(Eof, 0, 0)

  predicate IsLetter(c: byte) { 0x41 <= c <= 0x5A || 0x61 <= c <= 0x7A }

  predicate IsNameChar(c: byte) { IsLetter(c) || 0x30 <= c <= 0x39 || c == 0x5F || c == 0x2E }

  // --- the specification: lexing at a position of the text ---

  /** The character at a position; NUL at the end, where the lexer does not move any more. */
  function CharAt(text: seq<byte>, at: nat): byte {
    if at < |text| then text[at] else 0
  }

  function SkipSpace(text: seq<byte>, at: nat, inComment: bool): (end: nat)
    requires at <= |text|
    ensures at <= end <= |text|
    decreases |text| - at
  {
    var c := CharAt(text, at);
    if c == 0 then at
    else if inComment then SkipSpace(text, at + 1, c != LF)
    else if c == HASH then SkipSpace(text, at + 1, true)
    else if IsSpace(c) then SkipSpace(text, at + 1, false)
    else at
  }

  function QuoteEnd(text: seq<byte>, at: nat, quote: byte): (end: nat)
    requires at <= |text|
    ensures at <= end <= |text|
    decreases |text| - at
  {
    var c := CharAt(text, at);
    if c == 0 || c == quote then at else QuoteEnd(text, at + 1, quote)
  }

  function NameEnd(text: seq<byte>, at: nat): (end: nat)
    requires at <= |text|
    ensures at <= end <= |text|
    decreases |text| - at
  {
    var c := CharAt(text, at);
    if c == 0 || !IsNameChar(c) then at else NameEnd(text, at + 1)
  }

  lemma QuoteEndStep(text: seq<byte>, at: nat, quote: byte)
    requires at <= |text|
    ensures var c := CharAt(text, at);
            if c == 0 || c == quote then QuoteEnd(text, at, quote) == at
            else at < |text| && QuoteEnd(text, at, quote) == QuoteEnd(text, at + 1, quote)
  {
  }

  lemma NameEndStep(text: seq<byte>, at: nat)
    requires at <= |text|
    ensures var c := CharAt(text, at);
            if c == 0 || !IsNameChar(c) then NameEnd(text, at) == at
            else at < |text| && NameEnd(text, at) == NameEnd(text, at + 1)
  {
    hide IsNameChar;
  }

  /** One token and the position after it. */
  function Lex(text: seq<byte>, pos: nat): (r: (Token, nat))
    requires pos <= |text|
    ensures pos <= r.1 <= |text|
    ensures r.0.kind != Eof ==> pos < r.1
    ensures r.0.start + r.0.len <= |text|
  {
    var at := SkipSpace(text, pos, false);
    var c := CharAt(text, at);
    if c == 0 then (NO_TOKEN, at)
    else if c == EQUAL then (Token(Equal, 0, 0), at + 1)
    else if c == APOSTROPHE || c == QUOTE then
      var end := QuoteEnd(text, at + 1, c);
      (Token(Str, at + 1, end - (at + 1)), if CharAt(text, end) == 0 then end else end + 1)
    else if IsLetter(c) then
      var end := NameEnd(text, at);
      assert end > at;
      (Token(Identifier, at, end - at), end)
    else (NO_TOKEN, at + 1)
  }

  /** The position after n tokens, and the token that stands there. */
  function After(text: seq<byte>, pos: nat, n: nat): (after: nat)
    requires pos <= |text|
    ensures pos <= after <= |text|
    decreases n
  {
    if n == 0 then pos else Lex(text, After(text, pos, n - 1)).1
  }

  function TokenAt(text: seq<byte>, pos: nat, k: nat): Token
    requires pos <= |text|
  {
    Lex(text, After(text, pos, k)).0
  }

  lemma {:induction false} AfterShift(text: seq<byte>, pos: nat, m: nat, n: nat)
    requires pos <= |text|
    ensures After(text, After(text, pos, m), n) == After(text, pos, m + n)
    decreases n
  {
    hide Lex;
    if n > 0 {
      AfterShift(text, pos, m, n - 1);
    }
  }

  // --- the parser object ---

  const MASK := 3

  /** Index of the k-th slot after r in the ring: (r + k) & MASK. */
  function Slot(r: nat, k: nat): (slot: nat)
    ensures slot <= MASK
  {
    (r + k) % (MASK + 1)
  }

  class ConfigParser {
    const content: seq<byte>
    var at: nat
    var toRead: nat
    var toWrite: nat
    const lookaheads: array<Token>

    /** The logical position: where the first token still to be eaten starts; and the number of
        tokens lexed from there and not eaten. */
    ghost var pos: nat
    ghost var queued: nat

    /** The ring holds the first n tokens from p, and at stands behind them. */
    ghost predicate Holds(p: nat, n: nat)
      reads this, lookaheads
    {
      && lookaheads.Length == MASK + 1
      && toRead <= MASK && n <= MASK + 1 && toWrite == Slot(toRead, n)
      && p <= |content|
      && at == After(content, p, n)
      && forall k :: 0 <= k < n ==> lookaheads[Slot(toRead, k)] == TokenAt(content, p, k)
    }

    ghost predicate Valid()
      reads this, lookaheads
    {
      queued <= MASK && Holds(pos, queued)
    }

    constructor (content: seq<byte>)
      ensures Valid() && this.content == content && pos == 0 && fresh(lookaheads)
    {
      this.content := content;
      at, toRead, toWrite, pos, queued := 0, 0, 0, 0, 0;
      lookaheads := new Token[MASK + 1](_ => NO_TOKEN);
    }

    method PeekChar() returns (c: byte)
      ensures c == CharAt(content, at)
    {
      c := 0;
      if at < |content| {
        c := content[at];
      }
    }

    method EatChar()
      modifies this`at
      ensures at == if old(at) < |content| then old(at) + 1 else old(at)
    {
      if at < |content| {
        at := at + 1;
      }
    }

    method EatAndPeekChar() returns (c: byte)
      modifies this`at
      ensures at == if old(at) < |content| then old(at) + 1 else old(at)
      ensures c == CharAt(content, at)
    {
      EatChar();
      c := PeekChar();
    }

    method EatWhitespaces()
      requires at <= |content|
      modifies this`at
      ensures at == SkipSpace(content, old(at), false)
    {
      var inComment := false;
      var c := PeekChar();
      while c != 0
        invariant at <= |content| && c == CharAt(content, at)
        invariant SkipSpace(content, at, inComment) == SkipSpace(content, old(at), false)
        decreases |content| - at
      {
        if inComment {
          if c == LF {
            inComment := false;
          }
        } else {
          if c == HASH {
            inComment := true;
          } else if c != SPACE && c != TAB && c != CR && c != LF {
            break;
          }
        }
        c := EatAndPeekChar();
      }
    }

    method LexToken() returns (token: Token)
      requires at <= |content|
      modifies this`at
      ensures (token, at) == Lex(content, old(at))
    {
      hide QuoteEnd, NameEnd, SkipSpace, IsLetter, IsNameChar;
      token := NO_TOKEN;
      EatWhitespaces();
      var c0 := PeekChar();
      if c0 == 0 {
        return;
      } else if c0 == EQUAL {
        EatChar();
        return Token(Equal, 0, 0);
      } else if c0 == APOSTROPHE || c0 == QUOTE {
        EatChar();
        var start, len := at, 0;
        var c := PeekChar();
        while c != 0
          invariant start + len == at <= |content| && c == CharAt(content, at)
          invariant QuoteEnd(content, at, c0) == QuoteEnd(content, start, c0)
          decreases |content| - at
        {
          QuoteEndStep(content, at, c0);
          if c == c0 {
            break;
          }
          len := len + 1;
          c := EatAndPeekChar();
        }
        QuoteEndStep(content, at, c0);
        c := PeekChar();
        if c != 0 {
          EatChar();
        }
        return Token(Str, start, len);
      } else if IsLetter(c0) {
        var start, len := at, 0;
        var c := PeekChar();
        while c != 0
          invariant start + len == at <= |content| && c == CharAt(content, at)
          invariant NameEnd(content, at) == NameEnd(content, start)
          decreases |content| - at
        {
          NameEndStep(content, at);
          if !IsNameChar(c) {
            break;
          }
          len := len + 1;
          c := EatAndPeekChar();
        }
        NameEndStep(content, at);
        return Token(Identifier, start, len);
      } else {
        EatChar();
      }
    }

    /** One more token, into the slot to write. */
    method Fetch()
      requires Holds(pos, queued) && queued <= MASK
      modifies this`at, this`toWrite, this`queued, lookaheads
      ensures Holds(pos, queued) && queued == old(queued) + 1
    {
      hide Lex, Slot;
      SlotsDiffer(toRead, queued);
      var token := LexToken();
      lookaheads[toWrite] := token;
      toWrite := Slot(toWrite, 1);
      queued := queued + 1;
    }

    /** The k-th token from the logical position. Up to two tokens ahead the position stays; a
        lookahead of three, which the assertion admits, fills the ring: it then looks empty and
        all four tokens are lost. */
    method PeekToken(lookahead: nat) returns (token: Token)
      requires Valid() && lookahead <= MASK
      modifies this, lookaheads
      ensures Valid()
      ensures token == TokenAt(content, old(pos), lookahead)
      ensures pos == if lookahead < MASK then old(pos) else After(content, old(pos), MASK + 1)
      ensures lookahead < MASK ==> queued > lookahead
    {
      hide Lex, After, TokenAt, Slot;
      var offset := 0;
      while offset <= lookahead
        invariant offset <= lookahead + 1
        invariant pos == old(pos) && toRead == old(toRead)
        invariant Holds(pos, queued)
        invariant offset <= queued
        invariant queued > MASK ==> offset > MASK
        decreases lookahead + 1 - offset
      {
        var index := Slot(toRead, offset);
        SlotsDiffer(toRead, queued);
        if index == toWrite {
          Fetch();
        }
        offset := offset + 1;
      }
      token := lookaheads[Slot(toRead, lookahead)];
      if queued > MASK {
        AfterNone(content, at);
        SlotsDiffer(toRead, 0);
        pos, queued := at, 0;
      }
    }

    method EatToken()
      requires Valid()
      modifies this, lookaheads
      ensures Valid() && pos == After(content, old(pos), 1)
    {
      hide Lex, After, TokenAt, Slot;
      SlotsDiffer(toRead, queued);
      SlotsDiffer(toRead, 0);
      if toRead == toWrite {
        var _ := PeekToken(0);
      }
      TokensShift(content, pos, queued);
      SlotsShift(toRead);
      pos, queued := After(content, pos, 1), queued - 1;
      toRead := Slot(toRead, 1);
    }
  }

  /** A lookahead of three loses tokens: the text is one identifier, and after that peek it is gone. */
  method FullRingExample() returns (before: Token, after: Token)
    ensures before == Token(Identifier, 0, 1) && after == NO_TOKEN
  {
    hide Lex, After, TokenAt;
    OneLetter();
    var parser := new ConfigParser([0x61]);
    before := parser.PeekToken(0);
    var _ := parser.PeekToken(3);
    after := parser.PeekToken(0);
  }

  lemma OneLetter()
    ensures TokenAt([0x61], 0, 0) == Token(Identifier, 0, 1)
    ensures After([0x61], 0, 4) == 1 && TokenAt([0x61], 1, 0) == NO_TOKEN
  {
    var text: seq<byte> := [0x61];
    assert NameEnd(text, 0) == NameEnd(text, 1) == 1;
    assert Lex(text, 0) == (Token(Identifier, 0, 1), 1) && Lex(text, 1) == (NO_TOKEN, 1);
    assert After(text, 0, 1) == 1;
    assert After(text, 0, 2) == 1;
    assert After(text, 0, 3) == 1;
  }

  /** Only a full ring brings the write slot back to the first one. */
  lemma SlotsDiffer(r: nat, n: nat)
    requires r <= MASK && n <= MASK + 1
    ensures Slot(r, 0) == r == Slot(r, MASK + 1)
    ensures Slot(Slot(r, n), 1) == Slot(r, n + 1)
    ensures forall k :: 0 <= k < n ==> (Slot(r, k) == Slot(r, n) <==> n == MASK + 1 && k == 0)
  {
  }

  lemma SlotsShift(r: nat)
    requires r <= MASK
    ensures forall k: nat :: k <= MASK + 1 ==> Slot(Slot(r, 1), k) == Slot(r, k + 1)
  {
  }

  lemma AfterNone(text: seq<byte>, pos: nat)
    requires pos <= |text|
    ensures After(text, pos, 0) == pos
  {
  }

  lemma TokensShift(text: seq<byte>, pos: nat, n: nat)
    requires pos <= |text| && n > 0
    ensures After(text, After(text, pos, 1), n - 1) == After(text, pos, n)
    ensures forall k :: 0 <= k < n - 1 ==> TokenAt(text, After(text, pos, 1), k) == TokenAt(text, pos, k + 1)
  {
    hide Lex;
    AfterShift(text, pos, 1, n - 1);
    forall k | 0 <= k < n - 1 ensures TokenAt(text, After(text, pos, 1), k) == TokenAt(text, pos, k + 1) {
      AfterShift(text, pos, 1, k);
    }
  }
}
