/** The number texts of JSON layouts, as a grammar: those of section 6 of RFC 8259, those with leading zeros,
    and those whose point has digits on one side only. */
module JsonNumerals {
  import opened Bytes
  import opened JsonNumbers
  import opened JsonText
  import opened JsonLayouts

  const ZERO: byte := 0x30

  datatype Numeral = Numeral(minus: bool, whole: seq<byte>, fraction: Fraction, scale: Scale)
  {
    predicate Valid() {
      && AllDigits(whole) && (minus || whole != [])
      && AllDigits(fraction.Digits()) && (whole != [] || fraction.Digits() != []) && scale.Valid()
    }

    function Sign(): seq<byte> { if minus then [0x2D] else [] }

    function Text(): seq<byte> { (Sign() + whole) + (fraction.Text() + scale.Text()) }

    function Value(): real
      requires Valid()
    {
      var magnitude := Magnitude(whole, fraction.Digits(), scale.Power());
      if minus then -magnitude else magnitude
    }

    /** Section 6 of RFC 8259. */
    predicate InRfc() {
      && Valid() && whole != [] && (whole[0] == ZERO ==> |whole| == 1)
      && (fraction.Fraction? ==> fraction.digits != [])
    }
  }

  /** The whole and the fraction behind its point, times the power of ten. */
  function Magnitude(whole: seq<byte>, fraction: seq<byte>, power: int): real
    requires AllDigits(whole) && AllDigits(fraction)
  {
    (ValueOf(whole) as real + ValueOf(fraction) as real / PowerOfTen(|fraction|)) * PowerOfTen(power)
  }

  datatype Fraction = NoFraction | Fraction(digits: seq<byte>)
  {
    function Digits(): seq<byte> { if Fraction? then digits else [] }

    function Text(): seq<byte> { if Fraction? then [0x2E] + digits else [] }
  }

  datatype Scale = NoScale | Scale(letter: byte, sign: seq<byte>, digits: seq<byte>)
  {
    predicate Valid() {
      Scale? ==>
        && (letter == 0x45 || letter == 0x65) && (sign == [] || sign == [0x2B] || sign == [0x2D])
        && digits != [] && AllDigits(digits)
    }

    function Text(): seq<byte> { if Scale? then ([letter] + sign) + digits else [] }

    function Power(): int
      requires Valid()
    {
      if NoScale? then 0
      else
        var power: int := ValueOf(digits);
        if sign == [0x2D] then -power else power
    }
  }

  // --- powers of ten ---

  lemma {:induction false} PowerStep(k: int)
    ensures PowerOfTen(k + 1) == 10.0 * PowerOfTen(k) && PowerOfTen(k) > 0.0
    decreases if k < 0 then -k else k
  {
    if k > 0 {
      PowerStep(k - 1);
    } else if k < 0 {
      PowerStep(k + 1);
    }
  }

  /** n places to the right. */
  lemma {:induction false} PowerDivides(k: int, n: nat)
    ensures PowerOfTen(n) > 0.0 && PowerOfTen(k - n) == PowerOfTen(k) / PowerOfTen(n)
    decreases n
  {
    PowerStep(n);
    if n > 0 {
      PowerDivides(k, n - 1);
      PowerStep(n - 1);
      PowerStep(k - n);
      Tenth(PowerOfTen(k - n), PowerOfTen(k), PowerOfTen(n - 1));
    }
  }

  lemma Tenth(x: real, p: real, q: real)
    requires q > 0.0 && 10.0 * x == p / q
    ensures x == p / (10.0 * q)
  {
    assert p == (10.0 * x) * q;
    assert p == x * (10.0 * q);
  }

  lemma ValueStep(s: seq<byte>)
    requires s != [] && AllDigits(s)
    ensures AllDigits(s[..|s| - 1])
    ensures ValueOf(s) as real == 10.0 * (ValueOf(s[..|s| - 1]) as real) + DigitValue(s[|s| - 1]) as real
  {
  }

  /** The number that has the digits of v in front of those of f. */
  function Joined(v: real, places: real, f: real): real { v * places + f }

  lemma {:induction false} ValueOfJoin(a: seq<byte>, b: seq<byte>)
    requires AllDigits(a) && AllDigits(b)
    ensures AllDigits(a + b)
    ensures ValueOf(a + b) as real == Joined(ValueOf(a) as real, PowerOfTen(|b|), ValueOf(b) as real)
    decreases |b|
  {
    DigitsJoin(a, b);
    hide Joined;
    if b == [] {
      assert a + b == a;
      NothingJoined(ValueOf(a) as real);
    } else {
      hide ValueOf, PowerOfTen, AllDigits;
      var front, d := b[..|b| - 1], DigitValue(b[|b| - 1]) as real;
      ValueStep(b);
      ValueOfJoin(a, front);
      assert (a + b)[..|a + b| - 1] == a + front;
      ValueStep(a + b);
      PowerStep(|front|);
      OneMoreDigit(ValueOf(a) as real, PowerOfTen(|front|), ValueOf(front) as real, d);
    }
  }

  lemma NothingJoined(v: real)
    ensures Joined(v, 1.0, 0.0) == v
  {
  }

  lemma OneMoreDigit(v: real, p: real, f: real, d: real)
    ensures 10.0 * Joined(v, p, f) + d == Joined(v, 10.0 * p, 10.0 * f + d)
  {
    assert v * (10.0 * p) == 10.0 * (v * p);
  }

  /** The digits of both sides, and the power of ten that strtod uses. */
  lemma ScaledDigits(whole: seq<byte>, fraction: seq<byte>, power: int)
    requires AllDigits(whole) && AllDigits(fraction) && AllDigits(whole + fraction)
    ensures Scaled(whole + fraction, power - |fraction|) == Magnitude(whole, fraction, power)
  {
    hide ValueOf, PowerOfTen, AllDigits;
    ValueOfJoin(whole, fraction);
    PowerDivides(power, |fraction|);
    Distribute(ValueOf(whole) as real, ValueOf(fraction) as real, PowerOfTen(|fraction|), PowerOfTen(power));
  }

  lemma Distribute(w: real, f: real, q: real, p: real)
    requires q > 0.0
    ensures (w * q + f) * (p / q) == (w + f / q) * p
  {
    var x, y := f / q, p / q;
    assert f == x * q && p == y * q;
    assert (w * q + x * q) * y == (w + x) * (y * q);
  }

  // --- what strtod reads of a numeral ---

  /** Where digits stand, with something behind them that is none. */
  lemma DigitsStand(c: seq<byte>, at: nat, digits: seq<byte>)
    requires Occurs(c, at, digits) && AllDigits(digits)
    requires at + |digits| < |c| ==> !IsDigit(c[at + |digits|])
    ensures DigitsEnd(c, at) == at + |digits| && DigitsFrom(c, at) == digits
  {
    assert forall k :: at <= k < at + |digits| ==> c[k] == digits[k - at];
    DigitsEndIs(c, at, at + |digits|);
  }

  /** Where the parts of a numeral stand in its text. */
  lemma PartsStand(n: Numeral)
    ensures var c := n.Text();
            var start := |n.Sign()|;
            var point := start + |n.whole|;
            var end := point + |n.fraction.Text()|;
            && Occurs(c, 0, n.Sign()) && Occurs(c, start, n.whole) && Occurs(c, point, n.fraction.Text())
            && Occurs(c, end, n.scale.Text()) && end + |n.scale.Text()| == |c|
  {
    hide Occurs, Fraction.Text, Scale.Text, Numeral.Sign;
    var c := n.Text();
    assert c[0..|c|] == c && Occurs(c, 0, c) by {
      WholeOccurs(c);
    }
    OccursSplit(c, 0, n.Sign() + n.whole, n.fraction.Text() + n.scale.Text());
    OccursSplit(c, 0, n.Sign(), n.whole);
    OccursSplit(c, |n.Sign()| + |n.whole|, n.fraction.Text(), n.scale.Text());
  }

  lemma WholeOccurs(c: seq<byte>)
    ensures Occurs(c, 0, c)
  {
  }

  lemma MantissaIs(n: Numeral)
    requires n.Valid()
    ensures var end := |n.Sign()| + |n.whole| + |n.fraction.Text()|;
            Mantissa(n.Text()) == (n.whole + n.fraction.Digits(), |n.fraction.Digits()|, end)
  {
    hide Mantissa, Numeral.Text, Numeral.Valid;
    if n.fraction.Fraction? {
      MantissaOfFraction(n);
    } else {
      MantissaOfWhole(n);
      assert n.whole + [] == n.whole;
    }
  }

  lemma WholeStands(n: Numeral)
    requires n.Valid()
    ensures var c, start := n.Text(), |n.Sign()|;
            && start == (if IsSign(c, 0) then 1 else 0) && start + |n.whole| <= |c|
            && DigitsEnd(c, start) == start + |n.whole| && DigitsFrom(c, start) == n.whole
  {
    hide DigitsEnd, DigitsFrom, AllDigits, Occurs, Numeral.Text, IsDigit, Scale.Valid;
    PartsStand(n);
    SignFirst(n);
    BehindWhole(n);
    DigitsStand(n.Text(), |n.Sign()|, n.whole);
  }

  lemma MantissaOfFraction(n: Numeral)
    requires n.Valid() && n.fraction.Fraction?
    ensures var digits := n.fraction.digits;
            Mantissa(n.Text()) == (n.whole + digits, |digits|, |n.Sign()| + |n.whole| + 1 + |digits|)
  {
    hide DigitsEnd, DigitsFrom, AllDigits, Occurs, Numeral.Text, Numeral.Sign, IsDigit, Scale.Valid, Mantissa;
    var c, start, digits := n.Text(), |n.Sign()|, n.fraction.digits;
    var point := start + |n.whole|;
    WholeStands(n);
    PartsStand(n);
    BehindWhole(n);
    OccursSplit(c, point, [0x2E], digits);
    BehindFraction(n);
    DigitsStand(c, point + 1, digits);
    MantissaWithPoint(c, start, point);
  }

  lemma MantissaOfWhole(n: Numeral)
    requires n.Valid() && n.fraction.NoFraction?
    ensures Mantissa(n.Text()) == (n.whole, 0, |n.Sign()| + |n.whole|)
  {
    hide DigitsEnd, DigitsFrom, AllDigits, Numeral.Text, Numeral.Sign, IsDigit, Scale.Valid, Mantissa;
    WholeStands(n);
    BehindWhole(n);
    MantissaWithoutPoint(n.Text(), |n.Sign()|, |n.Sign()| + |n.whole|);
  }

  lemma MantissaWithPoint(c: seq<byte>, start: nat, point: nat)
    requires start == (if IsSign(c, 0) then 1 else 0) && DigitsEnd(c, start) == point
    requires point < |c| && c[point] == 0x2E
    ensures var end := DigitsEnd(c, point + 1);
            Mantissa(c) == (DigitsFrom(c, start) + DigitsFrom(c, point + 1), end - (point + 1), end)
  {
    hide DigitsEnd, DigitsFrom, AllDigits;
  }

  lemma MantissaWithoutPoint(c: seq<byte>, start: nat, point: nat)
    requires start == (if IsSign(c, 0) then 1 else 0) && DigitsEnd(c, start) == point
    requires point < |c| ==> c[point] != 0x2E
    ensures Mantissa(c) == (DigitsFrom(c, start), 0, point)
  {
    hide DigitsEnd, DigitsFrom, AllDigits;
  }

  lemma SignFirst(n: Numeral)
    requires n.Valid()
    ensures var c := n.Text();
            c != [] && IsSign(c, 0) == n.minus && (c[0] == MINUS <==> n.minus) && (c[0] == MINUS || IsDigit(c[0]))
  {
  }

  lemma BehindWhole(n: Numeral)
    requires n.Valid()
    ensures var c, at := n.Text(), |n.Sign()| + |n.whole|;
            && (at < |c| ==> !IsDigit(c[at]) && (c[at] == POINT <==> n.fraction.Fraction?))
            && (n.fraction.Fraction? ==> at < |c|)
  {
  }

  lemma BehindFraction(n: Numeral)
    requires n.Valid() && n.fraction.Fraction?
    ensures var c, at := n.Text(), |n.Sign()| + |n.whole| + 1 + |n.fraction.digits|;
            at < |c| ==> !IsDigit(c[at])
  {
  }

  lemma ExponentIs(n: Numeral)
    requires n.Valid()
    ensures var end := |n.Sign()| + |n.whole| + |n.fraction.Text()|;
            end <= |n.Text()| && Exponent(n.Text(), end) == (n.scale.Power(), |n.Text()|)
  {
    hide DigitsEnd, DigitsFrom, ValueOf, Occurs, Numeral.Text, Fraction.Text;
    PartsStand(n);
    if n.scale.Scale? {
      ScaleStands(n.Text(), |n.Sign()| + |n.whole| + |n.fraction.Text()|, n.scale);
    }
  }

  lemma ScaleStands(c: seq<byte>, end: nat, scale: Scale)
    requires scale.Scale? && scale.Valid() && Occurs(c, end, scale.Text()) && end + |scale.Text()| == |c|
    ensures Exponent(c, end) == (scale.Power(), |c|)
  {
    hide DigitsEnd, DigitsFrom, ValueOf, Occurs, AllDigits, IsDigit;
    OccursSplit(c, end, [scale.letter] + scale.sign, scale.digits);
    SignStands(c, end, scale);
    DigitsStand(c, end + 1 + |scale.sign|, scale.digits);
  }

  /** The letter, the sign if there is one, and the first digit. */
  lemma SignStands(c: seq<byte>, end: nat, scale: Scale)
    requires scale.Scale? && scale.Valid()
    requires Occurs(c, end, [scale.letter] + scale.sign) && Occurs(c, end + 1 + |scale.sign|, scale.digits)
    ensures end < |c| && IsExponent(c[end]) && (IsSign(c, end + 1) <==> scale.sign != []) && |scale.sign| <= 1
    ensures c[end + |scale.sign|] == MINUS <==> scale.sign == [0x2D]
  {
    hide Occurs, AllDigits;
    OccursSplit(c, end, [scale.letter], scale.sign);
    OccursAt(c, end, [scale.letter], 0);
    OccursAt(c, end + 1 + |scale.sign|, scale.digits, 0);
    if scale.sign != [] {
      OccursAt(c, end + 1, scale.sign, 0);
    }
    FirstDigit(scale.digits);
  }

  lemma FirstDigit(digits: seq<byte>)
    requires AllDigits(digits) && digits != []
    ensures IsDigit(digits[0])
  {
  }

  /** strtod reads a numeral to its end, with its value. */
  lemma NumeralReads(n: Numeral)
    requires n.Valid()
    ensures Strtod(n.Text()) == (n.Value(), |n.Text()|)
  {
    hide Mantissa, Exponent, Numeral.Text, AllDigits, Scaled, Magnitude;
    MantissaIs(n);
    ExponentIs(n);
    SignFirst(n);
    ScaledDigits(n.whole, n.fraction.Digits(), n.scale.Power());
  }

  lemma CharsOf(n: Numeral)
    requires n.Valid()
    ensures forall k :: 0 <= k < |n.Text()| ==> IsNumberChar(n.Text()[k])
  {
    AllChars(n.Sign(), n.whole);
    AllChars(n.fraction.Text(), n.scale.Text());
    AllChars(n.Sign() + n.whole, n.fraction.Text() + n.scale.Text());
  }

  lemma AllChars(a: seq<byte>, b: seq<byte>)
    requires forall k :: 0 <= k < |a| ==> IsNumberChar(a[k])
    requires forall k :: 0 <= k < |b| ==> IsNumberChar(b[k])
    ensures forall k :: 0 <= k < |a + b| ==> IsNumberChar((a + b)[k])
  {
  }

  // --- and what it reads to its end is one ---

  lemma FractionOf(c: seq<byte>) returns (whole: seq<byte>, fraction: Fraction)
    ensures var start := if IsSign(c, 0) then 1 else 0;
            && AllDigits(whole) && AllDigits(fraction.Digits()) && Mantissa(c).0 == whole + fraction.Digits()
            && start <= Mantissa(c).2 && c[start..Mantissa(c).2] == whole + fraction.Text()
            && (start < |c| && IsDigit(c[start]) ==> whole != [])
  {
    var start := if IsSign(c, 0) then 1 else 0;
    var point, end := DigitsEnd(c, start), Mantissa(c).2;
    whole := DigitsFrom(c, start);
    hide DigitsEnd;
    if point < |c| && c[point] == POINT {
      fraction := Fraction(DigitsFrom(c, point + 1));
      assert c[start..end] == c[start..point] + ([c[point]] + c[point + 1..end]);
    } else {
      fraction := NoFraction;
    }
  }

  lemma NumeralOf(c: seq<byte>) returns (n: Numeral)
    requires c != [] && Strtod(c).1 == |c| && (c[0] == MINUS || IsDigit(c[0]))
    ensures n.Valid() && n.Text() == c
  {
    hide Mantissa, Exponent, Scaled, AllDigits, Scale.Text, Fraction.Text, Scale.Valid;
    var start := if IsSign(c, 0) then 1 else 0;
    var end := Mantissa(c).2;
    var whole, fraction := FractionOf(c);
    var scale := ScaleOf(c, end);
    n := Numeral(c[0] == MINUS, whole, fraction, scale);
    assert c == (n.Sign() + c[start..end]) + c[end..];
    Regrouped(n.Sign(), whole, fraction.Text(), scale.Text());
  }

  lemma Regrouped(sign: seq<byte>, whole: seq<byte>, fraction: seq<byte>, scale: seq<byte>)
    ensures (sign + (whole + fraction)) + scale == (sign + whole) + (fraction + scale)
  {
  }

  lemma ScaleOf(c: seq<byte>, end: nat) returns (scale: Scale)
    requires end <= |c| && Exponent(c, end).1 == |c|
    ensures scale.Valid() && scale.Text() == c[end..]
  {
    hide DigitsEnd, ValueOf;
    if end == |c| {
      scale := NoScale;
    } else {
      var from := if IsSign(c, end + 1) then end + 2 else end + 1;
      scale := Scale(c[end], c[end + 1..from], DigitsFrom(c, from));
      assert c[end..] == ([c[end]] + c[end + 1..from]) + c[from..];
    }
  }

  ghost predicate IsNumeral(s: seq<byte>) { exists n: Numeral :: n.Valid() && n.Text() == s }

  /** The number texts of layouts are the numerals of at most 63 characters. */
  lemma NumberIsNumeral(s: seq<byte>)
    ensures IsNumber(s) <==> |s| <= 63 && IsNumeral(s)
  {
    hide Strtod, Numeral.Valid, Numeral.Text, Numeral.Value;
    if IsNumber(s) {
      var n := NumeralOf(s);
    }
    if IsNumeral(s) {
      var n: Numeral :| n.Valid() && n.Text() == s;
      NumeralReads(n);
      CharsOf(n);
      SignFirst(n);
    }
  }

  /** As a layout, a numeral has its own value. */
  lemma NumeralIsLayout(n: Numeral)
    requires n.Valid() && |n.Text()| <= 63
    ensures Valid(NumberText(n.Text())) && Value(NumberText(n.Text())) == Number(n.Value())
  {
    hide Strtod, Numeral.Valid, Numeral.Text, Numeral.Value, IsNumber;
    NumeralReads(n);
    assert IsNumeral(n.Text());
    NumberIsNumeral(n.Text());
  }

  /** The text 01 is parsed and consumed, although it is no number of RFC 8259. */
  lemma LeadingZeroParses(n: Numeral)
    ensures Parse([ZERO, ZERO + 1]) == Done(Number(1.0), 2)
    ensures n.Valid() && n.Text() == [ZERO, ZERO + 1] ==> !n.InRfc()
  {
    hide Parse;
    var one := Numeral(false, [ZERO, ZERO + 1], NoFraction, NoScale);
    assert ValueOf([ZERO]) == 10 * ValueOf([]) && [ZERO, ZERO + 1][..1] == [ZERO];
    assert ValueOf(one.whole) == 1 && PowerOfTen(0) == 1.0 && one.Value() == 1.0;
    NumeralIsLayout(one);
    assert [] + [] + one.Text() + [] == one.Text() == [ZERO, ZERO + 1];
    LayoutTextParses([], [], NumberText(one.Text()), []);
    if n.Valid() && n.Text() == [ZERO, ZERO + 1] {
      SignFirst(n);
      BehindWhole(n);
    }
  }

  /** Only 63 characters are collected: a longer number ends the array it stands in, without a value. */
  lemma LongNumberIsRefused(t: seq<byte>, offset: nat, depth: int)
    requires Terminated(t) && offset + 64 <= |t| && (t[offset] == MINUS || IsDigit(t[offset]))
    requires forall k :: offset <= k < offset + 64 ==> IsNumberChar(t[k])
    ensures ParseItems(t, offset, depth).NoItems?
  {
    hide ParseValue, SkipWhitespace;
    SkipNothing(t, offset);
    NumberIsShort(t, offset, depth);
    var r := ParseValue(t, offset, depth);
    if r.Done? {
      assert IsNumberChar(t[r.next]);
      SkipNothing(t, r.next);
    }
  }

  lemma NumberIsShort(t: seq<byte>, offset: nat, depth: int)
    requires Terminated(t) && offset < |t| && (t[offset] == MINUS || IsDigit(t[offset]))
    ensures var r := ParseValue(t, offset, depth); r.Done? ==> r.next <= offset + 63
  {
    hide Strtod, Occurs, Terminated;
    NoWord(t, offset);
  }
}
