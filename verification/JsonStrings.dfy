/** JSON strings in cJSON.c: a first pass finds the closing quote and sizes the output, a second
    one decodes. */
module JsonStrings {
  import opened Bytes
  import opened Options
  import opened Utf8

  const BACKSLASH: byte := 0x5C
  const LETTER_B: byte := 0x62
  const LETTER_F: byte := 0x66
  const LETTER_N: byte := 0x6E
  const LETTER_R: byte := 0x72
  const LETTER_T: byte := 0x74
  const LETTER_U: byte := 0x75

  // --- parse_hex4 ---

  predicate IsHex(b: byte) { 0x30 <= b <= 0x39 || 0x41 <= b <= 0x46 || 0x61 <= b <= 0x66 }

  function HexDigit(b: byte): (d: nat)
    requires IsHex(b)
    ensures d < 16
  {
    if b <= 0x39 then b - 0x30 else if b <= 0x46 then b - 0x41 + 10 else b - 0x61 + 10
  }

  predicate AllHex(s: seq<byte>) { forall k :: 0 <= k < |s| ==> IsHex(s[k]) }

  /** Four digits; anything else reads as 0. */
  function Hex4(s: seq<byte>): (u: nat)
    requires |s| == 4
    ensures u <= 0xFFFF
  {
    if AllHex(s) then ((HexDigit(s[0]) * 16 + HexDigit(s[1])) * 16 + HexDigit(s[2])) * 16 + HexDigit(s[3]) else 0
  }

  method ParseHex4(t: seq<byte>, at: nat) returns (h: nat)
    requires at + 4 <= |t|
    ensures h == Hex4(t[at..at + 4])
  {
    var s := t[at..at + 4];
    h := 0;
    var i := 0;
    while i < 4
      invariant i <= 4 && AllHex(s[..i])
      invariant i == 0 ==> h == 0
      invariant i == 1 ==> h == HexDigit(s[0]) * 16
      invariant i == 2 ==> h == (HexDigit(s[0]) * 16 + HexDigit(s[1])) * 16
      invariant i == 3 ==> h == ((HexDigit(s[0]) * 16 + HexDigit(s[1])) * 16 + HexDigit(s[2])) * 16
      invariant i == 4 ==> h == Hex4(s)
    {
      assert s[i] == t[at + i] && s[..i + 1] == s[..i] + [s[i]];
      if 0x30 <= t[at + i] <= 0x39 {
        h := h + t[at + i] - 0x30;
      } else if 0x41 <= t[at + i] <= 0x46 {
        h := h + 10 + t[at + i] - 0x41;
      } else if 0x61 <= t[at + i] <= 0x66 {
        h := h + 10 + t[at + i] - 0x61;
      } else {
        return 0;
      }
      if i < 3 {
        h := h * 16;
      }
      i := i + 1;
    }
    assert s[..4] == s;
  }

  // --- utf16_literal_to_utf8 ---

  /** What the literal at p decodes to and how long it is; length 0 is failure. */
  function Literal(t: seq<byte>, p: nat, end: nat): (r: (nat, seq<byte>))
    requires p <= end <= |t|
    ensures r.0 == 0 || r.0 == 6 || r.0 == 12
    ensures p + r.0 <= end && |r.1| <= 4
  {
    if end - p < 6 then (0, [])
    else
      var first := Hex4(t[p + 2..p + 6]);
      if IsLow(first) then (0, [])
      else if IsHigh(first) then
        if end - (p + 6) < 6 || t[p + 6] != BACKSLASH || t[p + 7] != LETTER_U then (0, [])
        else
          var second := Hex4(t[p + 8..p + 12]);
          if !IsLow(second) then (0, []) else (12, Encode(Combine(first, second)))
      else (6, Encode(first))
  }

  /** c >> 6 * j */
  function Shifted(c: nat, j: nat): nat { if j == 0 then c else Shifted(c, j - 1) / 64 }

  /** The mark of the first byte of n. */
  function Mark(n: nat): nat { if n == 4 then 0xF0 else if n == 3 then 0xE0 else if n == 2 then 0xC0 else 0 }

  lemma ShiftedStep(c: nat, j: nat)
    ensures Shifted(c, 0) == c && Shifted(c, j + 1) == Shifted(c, j) / 64
  {
  }

  lemma EncodedBytes(c: nat)
    requires c <= 0x10FFFF
    ensures var bytes := Encode(c);
            && bytes[0] == Mark(|bytes|) + Shifted(c, |bytes| - 1)
            && forall k :: 0 < k < |bytes| ==> bytes[k] == 0x80 + Shifted(c, |bytes| - 1 - k) % 64
  {
    hide Shifted;
    ShiftedStep(c, 0);
    ShiftedStep(c, 1);
    ShiftedStep(c, 2);
    assert c / 64 / 64 == c / 4096;
    assert c / 4096 / 64 == c / 262144;
  }

  /** The code point goes out from the last byte to the first. */
  method EncodeInto(codepoint: nat, output: array<byte>, at: nat) returns (after: nat)
    requires codepoint <= 0x10FFFF && at + |Encode(codepoint)| <= output.Length
    modifies output
    ensures after == at + |Encode(codepoint)|
    ensures output[..after] == old(output[..at]) + Encode(codepoint)
  {
    hide Encode, Shifted;
    var length: nat, mark: nat := 4, 0xF0;
    if codepoint < 0x80 {
      length, mark := 1, 0;
    } else if codepoint < 0x800 {
      length, mark := 2, 0xC0;
    } else if codepoint < 0x10000 {
      length, mark := 3, 0xE0;
    }
    ghost var bytes := Encode(codepoint);
    EncodedBytes(codepoint);
    ShiftedStep(codepoint, 0);
    var rest, position := codepoint, length - 1;
    while position > 0
      invariant 0 <= position < length && rest == Shifted(codepoint, length - 1 - position)
      invariant forall k :: position < k < length ==> output[at + k] == bytes[k]
      invariant output[..at] == old(output[..at])
    {
      ShiftedStep(codepoint, length - 1 - position);
      output[at + position] := 0x80 + rest % 64;
      rest := rest / 64;
      position := position - 1;
    }
    output[at] := mark + rest;
    after := at + length;
    assert forall k :: 0 <= k < length ==> output[at + k] == bytes[k];
    BytesStand(output[..], at, bytes);
  }

  lemma BytesStand(memory: seq<byte>, at: nat, bytes: seq<byte>)
    requires at + |bytes| <= |memory| && forall k :: 0 <= k < |bytes| ==> memory[at + k] == bytes[k]
    ensures memory[..at + |bytes|] == memory[..at] + bytes
  {
    assert memory[at..at + |bytes|] == bytes;
    assert memory[..at + |bytes|] == memory[..at] + memory[at..at + |bytes|];
  }

  method Utf16LiteralToUtf8(t: seq<byte>, p: nat, end: nat, output: array<byte>, at: nat)
    returns (sequenceLength: nat, after: nat)
    requires p <= end <= |t| && at + |Literal(t, p, end).1| <= output.Length
    modifies output
    ensures sequenceLength == Literal(t, p, end).0
    ensures sequenceLength > 0 ==>
              && after == at + |Literal(t, p, end).1|
              && output[..after] == old(output[..at]) + Literal(t, p, end).1
  {
    hide Encode, Hex4;
    if end - p < 6 {
      return 0, at;
    }
    var first := ParseHex4(t, p + 2);
    if 0xDC00 <= first <= 0xDFFF {
      return 0, at;
    }
    var codepoint := first;
    sequenceLength := 6;
    if 0xD800 <= first <= 0xDBFF {
      sequenceLength := 12;
      if end - (p + 6) < 6 {
        return 0, at;
      }
      if t[p + 6] != BACKSLASH || t[p + 7] != LETTER_U {
        return 0, at;
      }
      var second := ParseHex4(t, p + 8);
      if second < 0xDC00 || second > 0xDFFF {
        return 0, at;
      }
      codepoint := 0x10000 + (first - 0xD800) * 1024 + (second - 0xDC00);
    }
    after := EncodeInto(codepoint, output, at);
  }

  // --- the first pass ---

  /** The closing quote and the number of escapes before it, or None when the text ends first. */
  function ScanString(t: seq<byte>, p: nat): (r: Option<(nat, nat)>)
    requires p <= |t|
    ensures r.Some? ==> p <= r.value.0 < |t| && t[r.value.0] == QUOTE
    decreases |t| - p
  {
    if p == |t| then None
    else if t[p] == QUOTE then Some((p, 0))
    else if t[p] == BACKSLASH then
      if p + 1 >= |t| then None
      else
        var r := ScanString(t, p + 2);
        if r.None? then None else Some((r.value.0, r.value.1 + 1))
    else ScanString(t, p + 1)
  }

  // --- the second pass ---

  /** The byte that a short escape stands for; NUL for none. */
  function ShortEscape(c: byte): byte {
    if c == LETTER_B then 0x08
    else if c == LETTER_F then 0x0C
    else if c == LETTER_N then LF
    else if c == LETTER_R then CR
    else if c == LETTER_T then TAB
    else if c == QUOTE || c == BACKSLASH || c == SLASH then c
    else 0
  }

  function Prepend(s: seq<byte>, rest: Option<seq<byte>>): Option<seq<byte>> {
    if rest.None? then None else Some(s + rest.value)
  }

  /** Decoding from p up to the closing quote at end. A malformed escape may make the second pass
      cut the text differently from the first, even step over the closing quote. */
  function Decode(t: seq<byte>, p: nat, end: nat): Option<seq<byte>>
    requires end < |t|
    decreases |t| - p
  {
    if p >= end then Some([])
    else if t[p] != BACKSLASH then Prepend([t[p]], Decode(t, p + 1, end))
    else if t[p + 1] == LETTER_U then
      var (n, bytes) := Literal(t, p, end);
      if n == 0 then None else Prepend(bytes, Decode(t, p + n, end))
    else if ShortEscape(t[p + 1]) == 0 then None
    else Prepend([ShortEscape(t[p + 1])], Decode(t, p + 2, end))
  }

  /** The decoded string that starts with the quote at offset, and the offset behind it. */
  function StringAtOffset(t: seq<byte>, offset: nat): (r: Option<(seq<byte>, nat)>)
    requires offset < |t|
    ensures r.Some? ==> offset + 1 < r.value.1 <= |t| && t[r.value.1 - 1] == QUOTE
  {
    if t[offset] != QUOTE then None
    else
      var scan := ScanString(t, offset + 1);
      if scan.None? then None
      else
        var text := Decode(t, offset + 1, scan.value.0);
        if text.None? then None else Some((text.value, scan.value.0 + 1))
  }

  // --- the output of the second pass fits what the first pass measured ---

  /** Is position q inside an escape, for a first pass that stands at p (inside one if mid)? */
  function Mid(t: seq<byte>, p: nat, q: nat, mid: bool): bool
    requires p <= q <= |t|
    decreases q - p
  {
    if p == q then mid else Mid(t, p + 1, q, !mid && t[p] == BACKSLASH)
  }

  /** Escapes that this first pass starts in front of q. */
  function Escapes(t: seq<byte>, p: nat, q: nat, mid: bool): nat
    requires p <= q <= |t|
    decreases q - p
  {
    if p == q then 0
    else (if !mid && t[p] == BACKSLASH then 1 else 0) + Escapes(t, p + 1, q, !mid && t[p] == BACKSLASH)
  }

  lemma {:induction false} EscapesSplit(t: seq<byte>, p: nat, q: nat, r: nat, mid: bool)
    requires p <= q <= r <= |t|
    ensures Escapes(t, p, r, mid) == Escapes(t, p, q, mid) + Escapes(t, q, r, Mid(t, p, q, mid))
    ensures Mid(t, p, r, mid) == Mid(t, q, r, Mid(t, p, q, mid))
    decreases q - p
  {
    if p < q {
      EscapesSplit(t, p + 1, q, r, !mid && t[p] == BACKSLASH);
    }
  }

  /** Two escapes never overlap. */
  lemma {:induction false} EscapesAtMostHalf(t: seq<byte>, p: nat, q: nat, mid: bool)
    requires p <= q <= |t|
    ensures 2 * Escapes(t, p, q, mid) <= q - p + if mid then 0 else 1
    decreases q - p
  {
    if p < q {
      EscapesAtMostHalf(t, p + 1, q, !mid && t[p] == BACKSLASH);
    }
  }

  lemma {:induction false} ScanCountsEscapes(t: seq<byte>, p: nat)
    requires p <= |t| && ScanString(t, p).Some?
    ensures var (end, escapes) := ScanString(t, p).value;
            Escapes(t, p, end, false) == escapes && !Mid(t, p, end, false)
    decreases |t| - p
  {
    if t[p] == QUOTE {
    } else if t[p] == BACKSLASH {
      ScanCountsEscapes(t, p + 2);
      var end := ScanString(t, p + 2).value.0;
      EscapesSplit(t, p, p + 2, end, false);
      assert Escapes(t, p + 1, p + 2, true) == 0 && !Mid(t, p + 1, p + 2, true);
    } else {
      ScanCountsEscapes(t, p + 1);
    }
  }

  /** Output bytes that the measure grants for the text from start up to p. */
  function Budget(t: seq<byte>, start: nat, p: nat): int
    requires start <= p <= |t|
  {
    p - start - Escapes(t, start, p, false)
  }

  function Min(a: nat, b: nat): nat { if a < b then a else b }

  /** One round of the second pass: from p to q it writes size bytes. */
  predicate Round(t: seq<byte>, p: nat, end: nat, q: nat, size: nat)
    requires p < end < |t|
  {
    if t[p] != BACKSLASH then q == p + 1 && size == 1
    else if t[p + 1] == LETTER_U then
      var (n, bytes) := Literal(t, p, end);
      n != 0 && q == p + n && size == |bytes|
    else q == p + 2 && size == 1
  }

  lemma LiteralSizes(t: seq<byte>, p: nat, end: nat)
    requires p <= end <= |t|
    ensures var (n, bytes) := Literal(t, p, end);
            n == 6 ==> |bytes| <= 3
  {
  }

  lemma RoundKeepsBudget(t: seq<byte>, start: nat, p: nat, end: nat, q: nat, size: nat)
    requires start <= p < end < |t| && Round(t, p, end, q, size)
    requires !Mid(t, start, end, false)
    ensures Budget(t, start, p) + size <= Budget(t, start, Min(q, end)) <= Budget(t, start, end)
  {
    hide Literal;
    var q', mid := Min(q, end), Mid(t, start, p, false);
    EscapesSplit(t, start, p, q', false);
    EscapesAtMostHalf(t, p, q', mid);
    EscapesSplit(t, start, q', end, false);
    EscapesAtMostHalf(t, q', end, Mid(t, start, q', false));
    LiteralSizes(t, p, end);
    if t[p] != BACKSLASH {
      assert Escapes(t, p, p + 1, mid) == 0;
    } else if t[p + 1] != LETTER_U && p + 1 == end {
      assert Mid(t, p, end, mid) == !mid;
    }
  }

  /** For every text, well-formed or not: what is decoded fits. */
  lemma {:induction false} DecodeFits(t: seq<byte>, start: nat, p: nat, end: nat)
    requires start <= p && start <= end < |t| && !Mid(t, start, end, false)
    requires Decode(t, p, end).Some?
    ensures |Decode(t, p, end).value| + Budget(t, start, Min(p, end)) <= Budget(t, start, end)
    decreases |t| - p
  {
    hide Literal, ShortEscape;
    if p < end {
      var (n, bytes) := Literal(t, p, end);
      if t[p] != BACKSLASH {
        RoundKeepsBudget(t, start, p, end, p + 1, 1);
        DecodeFits(t, start, p + 1, end);
      } else if t[p + 1] == LETTER_U {
        RoundKeepsBudget(t, start, p, end, p + n, |bytes|);
        DecodeFits(t, start, p + n, end);
      } else {
        RoundKeepsBudget(t, start, p, end, p + 2, 1);
        DecodeFits(t, start, p + 2, end);
      }
    }
  }

  /** The two passes: the decoded bytes are never more than the text between the quotes without one
      byte for each escape. */
  lemma TwoPassesFit(t: seq<byte>, offset: nat)
    requires offset < |t| && StringAtOffset(t, offset).Some?
    ensures var (end, escapes) := ScanString(t, offset + 1).value;
            |StringAtOffset(t, offset).value.0| <= end - (offset + 1) - escapes
  {
    ScanCountsEscapes(t, offset + 1);
    DecodeFits(t, offset + 1, offset + 1, ScanString(t, offset + 1).value.0);
  }

  // --- parse_string ---

  function AddEscapes(r: Option<(nat, nat)>, n: nat): Option<(nat, nat)> {
    if r.None? then None else Some((r.value.0, r.value.1 + n))
  }

  method FirstPass(t: seq<byte>, start: nat) returns (found: bool, end: nat, skipped: nat)
    requires start <= |t|
    ensures found == ScanString(t, start).Some?
    ensures found ==> ScanString(t, start).value == (end, skipped)
  {
    end, skipped := start, 0;
    while end < |t| && t[end] != QUOTE
      invariant start <= end <= |t|
      invariant ScanString(t, start) == AddEscapes(ScanString(t, end), skipped)
      decreases |t| - end
    {
      if t[end] == BACKSLASH {
        if end + 1 >= |t| {
          return false, end, skipped;
        }
        skipped := skipped + 1;
        end := end + 1;
      }
      end := end + 1;
    }
    found := end < |t|;
  }

  /** Every write of the second pass stays inside the output that the first one sized. */
  method SecondPass(t: seq<byte>, start: nat, end: nat, skipped: nat, output: array<byte>)
    returns (ok: bool, length: nat)
    requires start <= |t| && ScanString(t, start) == Some((end, skipped))
    requires output.Length == (end - start + 1) - skipped + 1
    modifies output
    ensures ok == Decode(t, start, end).Some?
    ensures ok ==> length < output.Length && output[..length] == Decode(t, start, end).value && output[length] == 0
  {
    hide ScanString, Literal, ShortEscape, Escapes, Mid;
    ScanCountsEscapes(t, start);
    TwoPassesSize(t, start);
    NoEscapesYet(t, start);
    PrependNothing(Decode(t, start, end));
    var p: nat, at: nat := start, 0;
    assert output[..0] == [];
    while p < end
      invariant start <= p && at <= Budget(t, start, Min(p, end)) <= Budget(t, start, end) == end - start - skipped
      invariant Decode(t, start, end) == Prepend(output[..at], Decode(t, p, end))
      decreases |t| - p
    {
      ghost var before := output[..at];
      if t[p] != BACKSLASH {
        RoundKeepsBudget(t, start, p, end, p + 1, 1);
        PrependTwice(before, [t[p]], Decode(t, p + 1, end));
        output[at] := t[p];
        assert output[..at + 1] == before + [t[p]];
        at, p := at + 1, p + 1;
      } else if t[p + 1] == LETTER_U {
        ghost var (n, bytes) := Literal(t, p, end);
        if n != 0 {
          RoundKeepsBudget(t, start, p, end, p + n, |bytes|);
          PrependTwice(before, bytes, Decode(t, p + n, end));
        } else {
          FailedLiteral(t, p, end);
        }
        var sequenceLength;
        sequenceLength, at := Utf16LiteralToUtf8(t, p, end, output, at);
        if sequenceLength == 0 {
          return false, at;
        }
        p := p + sequenceLength;
      } else {
        if ShortEscape(t[p + 1]) == 0 {
          return false, at;
        }
        RoundKeepsBudget(t, start, p, end, p + 2, 1);
        PrependTwice(before, [ShortEscape(t[p + 1])], Decode(t, p + 2, end));
        output[at] := ShortEscape(t[p + 1]);
        assert output[..at + 1] == before + [ShortEscape(t[p + 1])];
        at, p := at + 1, p + 2;
      }
    }
    output[at] := 0;
    return true, at;
  }

  lemma NoEscapesYet(t: seq<byte>, start: nat)
    requires start <= |t|
    ensures Budget(t, start, start) == 0
  {
  }

  lemma FailedLiteral(t: seq<byte>, p: nat, end: nat)
    requires p <= end <= |t| && Literal(t, p, end).0 == 0
    ensures Literal(t, p, end).1 == []
  {
  }

  lemma PrependNothing(rest: Option<seq<byte>>)
    ensures Prepend([], rest) == rest
  {
    if rest.Some? {
      assert [] + rest.value == rest.value;
    }
  }

  lemma PrependTwice(a: seq<byte>, b: seq<byte>, rest: Option<seq<byte>>)
    ensures Prepend(a, Prepend(b, rest)) == Prepend(a + b, rest)
  {
    if rest.Some? {
      assert a + (b + rest.value) == (a + b) + rest.value;
    }
  }

  method ParseString(t: seq<byte>, offset: nat) returns (r: Option<(seq<byte>, nat)>)
    requires offset < |t|
    ensures r == StringAtOffset(t, offset)
  {
    if t[offset] != QUOTE {
      return None;
    }
    var found, end, skipped := FirstPass(t, offset + 1);
    if !found {
      return None;
    }
    TwoPassesSize(t, offset + 1);
    var output := new byte[(end - offset) - skipped + 1](_ => 0);
    var ok, length := SecondPass(t, offset + 1, end, skipped, output);
    if !ok {
      return None;
    }
    return Some((output[..length], end + 1));
  }

  lemma TwoPassesSize(t: seq<byte>, start: nat)
    requires start <= |t| && ScanString(t, start).Some?
    ensures var (end, escapes) := ScanString(t, start).value; escapes <= end - start
  {
    ScanCountsEscapes(t, start);
    EscapesAtMostHalf(t, start, ScanString(t, start).value.0, false);
  }
}
