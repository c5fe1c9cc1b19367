/** UTF-8 as RFC 3629 section 3 defines it, and UTF-16 surrogates (RFC 2781 section 2.2). */
module Utf8 {
  import opened Bytes

  /** A code point, in one to four bytes. */
  function Encode(c: nat): (s: seq<byte>)
    requires c <= 0x10FFFF
    ensures |s| == if c < 0x80 then 1 else if c < 0x800 then 2 else if c < 0x10000 then 3 else 4
  {
    if c < 0x80 then [c]
    else if c < 0x800 then [0xC0 + c / 64, 0x80 + c % 64]
    else if c < 0x10000 then [0xE0 + c / 4096, 0x80 + c / 64 % 64, 0x80 + c % 64]
    else [0xF0 + c / 262144, 0x80 + c / 4096 % 64, 0x80 + c / 64 % 64, 0x80 + c % 64]
  }

  /** The bits a continuation byte carries, or 64 for another byte. */
  function Continuation(s: seq<byte>, i: nat): nat {
    if i < |s| && 0x80 <= s[i] < 0xC0 then s[i] - 0x80 else 64
  }

  /** The first code point of s and its length; length 0 when s does not start with one. Overlong
      forms are refused. */
  function DecodeFirst(s: seq<byte>): (nat, nat) {
    var x, y, z := Continuation(s, 1), Continuation(s, 2), Continuation(s, 3);
    if s == [] then (0, 0)
    else if s[0] < 0x80 then (s[0], 1)
    else if 0xC2 <= s[0] < 0xE0 && x < 64 then ((s[0] - 0xC0) * 64 + x, 2)
    else if 0xE0 <= s[0] < 0xF0 && x < 64 && y < 64 && (s[0] > 0xE0 || x >= 0x20)
    then ((s[0] - 0xE0) * 4096 + x * 64 + y, 3)
    else if 0xF0 <= s[0] < 0xF5 && x < 64 && y < 64 && z < 64 && (s[0] > 0xF0 || x >= 0x10)
    then ((s[0] - 0xF0) * 262144 + x * 4096 + y * 64 + z, 4)
    else (0, 0)
  }

  lemma DecodeEncode(c: nat, rest: seq<byte>)
    requires c <= 0x10FFFF
    ensures DecodeFirst(Encode(c) + rest) == (c, |Encode(c)|)
  {
    if c >= 0x10000 {
      assert c == c / 64 * 64 + c % 64;
      assert c / 64 == c / 4096 * 64 + c / 64 % 64;
      assert c / 4096 == c / 262144 * 64 + c / 4096 % 64;
    } else if c >= 0x800 {
      assert c == c / 64 * 64 + c % 64;
      assert c / 64 == c / 4096 * 64 + c / 64 % 64;
    }
  }

  predicate IsHigh(u: nat) { 0xD800 <= u <= 0xDBFF }

  predicate IsLow(u: nat) { 0xDC00 <= u <= 0xDFFF }

  function Combine(high: nat, low: nat): (c: nat)
    requires IsHigh(high) && IsLow(low)
    ensures 0x10000 <= c <= 0x10FFFF
  {
    0x10000 + (high - 0xD800) * 1024 + (low - 0xDC00)
  }

  /** The bit operations of the C code, as the arithmetic that stands for them here. */
  lemma BitOperations(c: bv32, high: bv32, low: bv32)
    ensures (c | 0x80) & 0xBF == 0x80 + c % 64
    ensures c >> 6 == c / 64
    ensures c < 0x80 ==> c & 0x7F == c
    ensures c < 0x20 ==> (c | 0xC0) & 0xFF == 0xC0 + c
    ensures c < 0x10 ==> (c | 0xE0) & 0xFF == 0xE0 + c
    ensures c < 0x08 ==> (c | 0xF0) & 0xFF == 0xF0 + c
    ensures 0xD800 <= high <= 0xDBFF && 0xDC00 <= low <= 0xDFFF ==>
              0x10000 + (((high & 0x3FF) << 10) | (low & 0x3FF)) == 0x10000 + (high - 0xD800) * 1024 + (low - 0xDC00)
  {
  }
}
