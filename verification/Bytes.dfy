/** Bytes and NUL-terminated strings (code/hand_common.h). */
module Bytes {

  type byte = x: int | 0 <= x < 256

  const TAB: byte := 0x09
  const LF: byte := 0x0A
  const CR: byte := 0x0D
  const SPACE: byte := 0x20
  const QUOTE: byte := 0x22
  const SLASH: byte := 0x2F

  predicate IsSpace(b: byte) { b == SPACE || b == TAB || b == CR || b == LF }

  /** part stands in text at a position. */
  predicate Occurs(text: seq<byte>, at: nat, part: seq<byte>) {
    at + |part| <= |text| && text[at..at + |part|] == part
  }

  lemma OccursSplit(text: seq<byte>, at: nat, a: seq<byte>, b: seq<byte>)
    requires Occurs(text, at, a + b)
    ensures Occurs(text, at, a) && Occurs(text, at + |a|, b)
  {
    assert text[at..at + |a|] == text[at..at + |a| + |b|][..|a|];
    assert text[at + |a|..at + |a| + |b|] == text[at..at + |a| + |b|][|a|..];
  }

  lemma OccursAt(text: seq<byte>, at: nat, part: seq<byte>, k: nat)
    requires Occurs(text, at, part) && k < |part|
    ensures at + |part| <= |text| && text[at + k] == part[k]
  {
    assert text[at..at + |part|][k] == text[at + k];
  }

  lemma ConcatAssoc<T>(a: seq<T>, b: seq<T>, c: seq<T>)
    ensures a + (b + c) == a + b + c
  {
  }

  /** A C string of a sequence of bytes: what stands before the first NUL. */
  function CString(s: seq<byte>): (c: seq<byte>)
    ensures c <= s && 0 !in c
    ensures 0 !in s ==> c == s
    ensures |c| < |s| ==> s[|c|] == 0
  {
    if s == [] || s[0] == 0 then [] else [s[0]] + CString(s[1..])
  }

  /** s stands NUL-terminated at an offset of memory. */
  predicate StringAt(memory: seq<byte>, offset: nat, s: seq<byte>) {
    && 0 !in s
    && offset + |s| < |memory|
    && memory[offset..offset + |s|] == s
    && memory[offset + |s|] == 0
  }

  /** A string found at an offset is what reading to the next NUL gives. */
  lemma {:induction false} StringAtIsCString(memory: seq<byte>, offset: nat, s: seq<byte>)
    requires StringAt(memory, offset, s)
    ensures CString(memory[offset..]) == s
    decreases |s|
  {
    var m := memory[offset..];
    assert m[|s|] == 0 && m[..|s|] == s;
    if s != [] {
      assert m[0] == s[0] && m[1..] == memory[offset + 1..];
      assert memory[offset + 1..offset + |s|] == s[1..];
      StringAtIsCString(memory, offset + 1, s[1..]);
    }
  }

  /** string_len */
  method StringLen(memory: array<byte>, at: nat, ghost s: seq<byte>) returns (len: nat)
    requires StringAt(memory[..], at, s)
    ensures len == |s|
  {
    assert forall k :: 0 <= k < |s| ==> memory[at + k] == memory[..][at..at + |s|][k] == s[k];
    len := 0;
    while memory[at + len] != 0
      invariant len <= |s|
      decreases |s| - len
    {
      len := len + 1;
    }
  }

  /** compare_string, against the string at an offset of a */
  method CompareString(a: array<byte>, at: nat, ghost s: seq<byte>, b: seq<byte>) returns (equal: bool)
    requires StringAt(a[..], at, s) && 0 !in b
    ensures equal <==> s == b
  {
    assert forall k :: 0 <= k < |s| ==> a[at + k] == a[..][at..at + |s|][k] == s[k];
    var i := 0;
    while true
      invariant i <= |s| && i <= |b| && s[..i] == b[..i]
      decreases |s| - i
    {
      var bi: byte := if i < |b| then b[i] else 0;
      if a[at + i] != bi {
        return false;
      }
      if a[at + i] == 0 {
        return true;
      }
      i := i + 1;
    }
  }

  /** copy_memory, into an array */
  method CopyMemory(dest: array<byte>, at: nat, source: seq<byte>)
    requires at + |source| <= dest.Length
    modifies dest
    ensures dest[..] == old(dest[..at]) + source + old(dest[at + |source|..])
  {
    var i := 0;
    while i < |source|
      invariant i <= |source|
      invariant forall k :: 0 <= k < i ==> dest[at + k] == source[k]
      invariant forall k :: 0 <= k < dest.Length && !(at <= k < at + i) ==> dest[k] == old(dest[k])
    {
      dest[at + i] := source[i];
      i := i + 1;
    }
    assert dest[at..at + |source|] == source;
    assert dest[..at] == old(dest[..at]) && dest[at + |source|..] == old(dest[at + |source|..]);
  }
}
