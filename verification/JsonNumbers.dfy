/** Numbers in cJSON.c: the text strtod accepts, read exactly, and the decimal text of an int. */
module JsonNumbers {
  import opened Bytes

  const PLUS: byte := 0x2B
  const MINUS: byte := 0x2D
  const POINT: byte := 0x2E

  predicate IsDigit(b: byte) { 0x30 <= b <= 0x39 }

  predicate IsExponent(b: byte) { b == 0x65 || b == 0x45 }

  /** The characters parse_number collects. */
  predicate IsNumberChar(b: byte) { IsDigit(b) || b == PLUS || b == MINUS || b == POINT || IsExponent(b) }

  // --- strtod ---

  function DigitsEnd(c: seq<byte>, i: nat): (end: nat)
    requires i <= |c|
    ensures i <= end <= |c|
    ensures forall k :: i <= k < end ==> IsDigit(c[k])
    ensures end < |c| ==> !IsDigit(c[end])
    decreases |c| - i
  {
    if i < |c| && IsDigit(c[i]) then DigitsEnd(c, i + 1) else i
  }

  predicate AllDigits(s: seq<byte>) { forall k :: 0 <= k < |s| ==> IsDigit(s[k]) }

  /** The digits from i on. */
  function DigitsFrom(c: seq<byte>, i: nat): (digits: seq<byte>)
    requires i <= |c|
    ensures AllDigits(digits) && |digits| == DigitsEnd(c, i) - i
  {
    var digits := c[i..DigitsEnd(c, i)];
    assert forall k :: 0 <= k < |digits| ==> digits[k] == c[i + k];
    digits
  }

  lemma DigitsJoin(a: seq<byte>, b: seq<byte>)
    requires AllDigits(a) && AllDigits(b)
    ensures AllDigits(a + b)
  {
  }

  function DigitValue(b: byte): nat
    requires IsDigit(b)
  {
    b - 0x30
  }

  function ValueOf(digits: seq<byte>): nat
    requires AllDigits(digits)
  {
    if digits == [] then 0
    else 10 * ValueOf(digits[..|digits| - 1]) + DigitValue(digits[|digits| - 1])
  }

  function PowerOfTen(k: int): (p: real)
    ensures p > 0.0
    decreases if k < 0 then -k else k
  {
    if k == 0 then 1.0 else if k > 0 then 10.0 * PowerOfTen(k - 1) else PowerOfTen(k + 1) / 10.0
  }

  predicate IsSign(c: seq<byte>, i: nat) { i < |c| && (c[i] == PLUS || c[i] == MINUS) }

  /** Digits with an optional point: all of them, how many stand behind the point, and where they end. */
  function Mantissa(c: seq<byte>): (r: (seq<byte>, nat, nat))
    ensures AllDigits(r.0) && r.2 <= |c| && (r.0 != [] ==> r.2 > 0)
  {
    var start := if IsSign(c, 0) then 1 else 0;
    var point := DigitsEnd(c, start);
    if point < |c| && c[point] == POINT then
      DigitsJoin(DigitsFrom(c, start), DigitsFrom(c, point + 1));
      var end := DigitsEnd(c, point + 1);
      (DigitsFrom(c, start) + DigitsFrom(c, point + 1), end - (point + 1), end)
    else (DigitsFrom(c, start), 0, point)
  }

  /** The exponent behind the mantissa, if digits follow its letter, and where the number ends. */
  function Exponent(c: seq<byte>, end: nat): (r: (int, nat))
    requires end <= |c|
    ensures end <= r.1 <= |c|
  {
    if end < |c| && IsExponent(c[end]) then
      var from := if IsSign(c, end + 1) then end + 2 else end + 1;
      var to := DigitsEnd(c, from);
      if from == to then (0, end)
      else
        var exponent: int := ValueOf(DigitsFrom(c, from));
        (if c[from - 1] == MINUS then -exponent else exponent, to)
    else (0, end)
  }

  function Scaled(digits: seq<byte>, power: int): real
    requires AllDigits(digits)
  {
    (ValueOf(digits) as real) * PowerOfTen(power)
  }

  /** The number at the start of c and its length; length 0 when there is none. Values are exact:
      the rounding to a double is not part of the model. */
  function Strtod(c: seq<byte>): (r: (real, nat))
    ensures r.1 <= |c|
  {
    var (digits, places, end) := Mantissa(c);
    if digits == [] then (0.0, 0)
    else
      var (exponent, length) := Exponent(c, end);
      var value := Scaled(digits, exponent - places);
      (if IsSign(c, 0) && c[0] == MINUS then -value else value, length)
  }

  /** parse_number collects at most 63 characters. */
  function NumberEnd(t: seq<byte>, i: nat, left: nat): (end: nat)
    requires i <= |t|
    ensures i <= end <= |t| && end <= i + left
    ensures forall k :: i <= k < end ==> IsNumberChar(t[k])
    decreases left
  {
    if left > 0 && i < |t| && IsNumberChar(t[i]) then NumberEnd(t, i + 1, left - 1) else i
  }

  function NumberAt(t: seq<byte>, offset: nat): (r: (real, nat))
    requires offset <= |t|
    ensures offset + r.1 <= |t|
    ensures r.1 > 0 ==> IsNumberChar(t[offset + r.1 - 1])
  {
    var c := t[offset..NumberEnd(t, offset, 63)];
    assert forall k :: 0 <= k < |c| ==> c[k] == t[offset + k];
    Strtod(c)
  }

  // --- sprintf %d ---

  const INT_MIN := -0x8000_0000
  const INT_MAX := 0x7FFF_FFFF

  function Digits(n: nat): (s: seq<byte>)
    ensures s != [] && forall k :: 0 <= k < |s| ==> IsDigit(s[k])
  {
    if n < 10 then [0x30 + n] else Digits(n / 10) + [0x30 + n % 10]
  }

  function Decimal(n: int): (s: seq<byte>)
    ensures s != [] && forall k :: 0 <= k < |s| ==> IsDigit(s[k]) || s[k] == MINUS
  {
    if n < 0 then [MINUS] + Digits(-n) else Digits(n)
  }

  lemma {:induction false} ValueOfDigits(n: nat)
    ensures ValueOf(Digits(n)) == n
  {
    if n >= 10 {
      ValueOfDigits(n / 10);
      var s := Digits(n);
      assert s[..|s| - 1] == Digits(n / 10);
    }
  }

  /** No leading zeros: with its value, that leaves one text only. */
  lemma {:induction false} DigitsAreCanonical(n: nat)
    ensures Digits(n)[0] == 0x30 ==> n == 0 && |Digits(n)| == 1
  {
    if n >= 10 {
      DigitsAreCanonical(n / 10);
    }
  }

  function Bound(k: nat): nat {
    if k == 0 then 1 else 10 * Bound(k - 1)
  }

  lemma {:induction false} DigitsLength(n: nat, k: nat)
    requires k > 0 && n < Bound(k)
    ensures |Digits(n)| <= k
    decreases k
  {
    if n >= 10 {
      assert k > 1;
      DigitsLength(n / 10, k - 1);
    }
  }

  lemma DecimalLength(n: int)
    requires INT_MIN <= n <= INT_MAX
    ensures |Decimal(n)| <= 11
  {
    assert Bound(2) == 100;
    assert Bound(4) == 100 * Bound(2);
    assert Bound(6) == 100 * Bound(4);
    assert Bound(8) == 100 * Bound(6);
    assert Bound(10) == 100 * Bound(8);
    DigitsLength(if n < 0 then -n else n, 10);
  }

  lemma {:induction false} DigitsEndIs(c: seq<byte>, i: nat, end: nat)
    requires i <= end <= |c| && (forall k :: i <= k < end ==> IsDigit(c[k])) && (end < |c| ==> !IsDigit(c[end]))
    ensures DigitsEnd(c, i) == end
    decreases end - i
  {
    if i < end {
      DigitsEndIs(c, i + 1, end);
    }
  }

  /** An optional minus and digits up to the end: an integer. */
  lemma StrtodOfInteger(c: seq<byte>, negative: bool)
    requires var start := if negative then 1 else 0;
             && start < |c| && (negative ==> c[0] == MINUS)
             && forall k :: start <= k < |c| ==> IsDigit(c[k])
    ensures var start := if negative then 1 else 0;
            var value := ValueOf(c[start..]) as real;
            Strtod(c) == (if negative then -value else value, |c|)
  {
    hide ValueOf, DigitsEnd;
    var start := if negative then 1 else 0;
    DigitsEndIs(c, start, |c|);
    DigitsEndIs(c, |c|, |c|);
    assert c[start..|c|] == c[start..] && c[start..] + [] == c[start..];
    assert PowerOfTen(0) == 1.0;
  }

  lemma DigitsOfPrefix(c: seq<byte>, i: nat, n: nat)
    requires i <= n <= |c| && DigitsEnd(c, i) <= n
    ensures DigitsEnd(c[..n], i) == DigitsEnd(c, i) && DigitsFrom(c[..n], i) == DigitsFrom(c, i)
  {
    hide DigitsEnd;
    DigitsEndIs(c[..n], i, DigitsEnd(c, i));
    assert c[..n][i..DigitsEnd(c, i)] == c[i..DigitsEnd(c, i)];
  }

  lemma MantissaOfPrefix(c: seq<byte>, n: nat)
    requires Mantissa(c).2 <= n <= |c| && Mantissa(c).0 != []
    ensures Mantissa(c[..n]) == Mantissa(c)
  {
    hide DigitsEnd;
    var start := if IsSign(c, 0) then 1 else 0;
    var point := DigitsEnd(c, start);
    DigitsOfPrefix(c, start, n);
    if point < |c| && c[point] == POINT {
      DigitsOfPrefix(c, point + 1, n);
    }
  }

  lemma ExponentOfPrefix(c: seq<byte>, end: nat)
    requires end <= |c|
    ensures Exponent(c[..Exponent(c, end).1], end) == Exponent(c, end)
  {
    hide DigitsEnd, ValueOf;
    var n := Exponent(c, end).1;
    if n > end {
      DigitsOfPrefix(c, if IsSign(c, end + 1) then end + 2 else end + 1, n);
    }
  }

  /** Only the text that strtod read matters. */
  lemma StrtodOfPrefix(c: seq<byte>)
    requires Strtod(c).1 > 0
    ensures Strtod(c[..Strtod(c).1]) == Strtod(c)
  {
    hide Mantissa, Exponent;
    MantissaOfPrefix(c, Strtod(c).1);
    ExponentOfPrefix(c, Mantissa(c).2);
    assert c[..Strtod(c).1][0] == c[0];
  }

  lemma StrtodOfDecimal(n: int)
    ensures Strtod(Decimal(n)) == (n as real, |Decimal(n)|)
  {
    hide Strtod;
    var c := Decimal(n);
    var start := if n < 0 then 1 else 0;
    var m: nat := if n < 0 then -n else n;
    assert c[start..] == Digits(m);
    assert forall k :: start <= k < |c| ==> c[k] == Digits(m)[k - start];
    StrtodOfInteger(c, n < 0);
    ValueOfDigits(m);
  }

  lemma {:induction false} NumberEndIs(t: seq<byte>, i: nat, left: nat, s: seq<byte>)
    requires Occurs(t, i, s) && |s| <= left && forall k :: 0 <= k < |s| ==> IsNumberChar(s[k])
    requires i + |s| < |t| && !IsNumberChar(t[i + |s|])
    ensures NumberEnd(t, i, left) == i + |s|
    decreases left
  {
    if s != [] {
      OccursAt(t, i, s, 0);
      assert [s[0]] + s[1..] == s;
      OccursSplit(t, i, [s[0]], s[1..]);
      NumberEndIs(t, i + 1, left - 1, s[1..]);
    }
  }

  /** The decimal text of an int reads as that int, whatever follows that is no number character. */
  lemma DecimalParses(t: seq<byte>, offset: nat, n: int)
    requires INT_MIN <= n <= INT_MAX && Occurs(t, offset, Decimal(n))
    requires offset + |Decimal(n)| < |t| && !IsNumberChar(t[offset + |Decimal(n)|])
    ensures NumberAt(t, offset) == (n as real, |Decimal(n)|)
  {
    hide Decimal, Strtod;
    DecimalLength(n);
    NumberEndIs(t, offset, 63, Decimal(n));
    StrtodOfDecimal(n);
  }
}
