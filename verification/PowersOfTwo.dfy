/** next_pow_of_two (code/hand_common.h): smearing the highest bit of value - 1 downwards. */
module PowersOfTwo {

  function Pow2(k: nat): (p: nat)
    ensures p > 0
  {
    if k == 0 then 1 else 2 * Pow2(k - 1)
  }

  lemma {:induction false} Pow2Monotone(a: nat, b: nat)
    requires a <= b
    ensures Pow2(a) <= Pow2(b)
    ensures a < b ==> 2 * Pow2(a) <= Pow2(b)
    decreases b
  {
    if a < b {
      Pow2Monotone(a, b - 1);
    }
  }

  ghost predicate IsPow2(n: nat) { exists k :: n == Pow2(k) }

  lemma SmallerPow2IsAtMostHalf(a: nat, b: nat)
    requires IsPow2(a) && IsPow2(b) && a < b
    ensures 2 * a <= b
  {
    var i :| a == Pow2(i);
    var j :| b == Pow2(j);
    if j <= i {
      Pow2Monotone(j, i);
    }
    Pow2Monotone(i, j);
  }

  /** x >> k and x | y */
  function Shr(x: nat, k: nat): nat {
    if k == 0 then x else Shr(x / 2, k - 1)
  }

  function Or(x: nat, y: nat): nat {
    if x == 0 && y == 0 then 0
    else 2 * Or(x / 2, y / 2) + if x % 2 == 1 || y % 2 == 1 then 1 else 0
  }

  lemma {:induction false} OrZero(x: nat)
    ensures Or(x, 0) == x
  {
    if x > 0 {
      OrZero(x / 2);
    }
  }

  /** x has m bits, and the upper ones above position g are all set. */
  predicate OnesDownTo(x: nat, m: nat, g: nat) {
    g <= m && Pow2(m) - Pow2(g) <= x < Pow2(m)
  }

  lemma OnesHalf(x: nat, m: nat, g: nat)
    requires OnesDownTo(x, m, g) && m > 0
    ensures OnesDownTo(x / 2, m - 1, if g == 0 then 0 else g - 1)
    ensures g == 0 ==> x % 2 == 1
  {
  }

  /** Or joins two adjacent runs of ones. */
  lemma {:induction false} OrJoinsOnes(x: nat, y: nat, m: nat, h: nat, g: nat)
    requires OnesDownTo(x, m, h) && OnesDownTo(y, h, g)
    ensures OnesDownTo(Or(x, y), m, g)
    decreases h
  {
    if h == 0 {
      OrZero(x);
    } else {
      OnesHalf(x, m, h);
      OnesHalf(y, h, g);
      OrJoinsOnes(x / 2, y / 2, m - 1, h - 1, if g == 0 then 0 else g - 1);
    }
  }

  function Sub(a: nat, b: nat): nat { if a < b then 0 else a - b }

  lemma {:induction false} ShrMovesOnes(x: nat, m: nat, g: nat, n: nat)
    requires OnesDownTo(x, m, g)
    ensures OnesDownTo(Shr(x, n), Sub(m, n), Sub(g, n))
    decreases n
  {
    if n > 0 {
      if m == 0 {
        assert x == 0;
        ShrMovesOnes(0, 0, 0, n - 1);
      } else {
        OnesHalf(x, m, g);
        ShrMovesOnes(x / 2, m - 1, Sub(g, 1), n - 1);
      }
    }
  }

  /** One smearing step doubles the run of ones under the highest bit. */
  lemma SmearStep(x: nat, m: nat, n: nat)
    requires OnesDownTo(x, m, Sub(m, n))
    ensures OnesDownTo(Or(x, Shr(x, n)), m, Sub(m, 2 * n))
  {
    ShrMovesOnes(x, m, Sub(m, n), n);
    OrJoinsOnes(x, Shr(x, n), m, Sub(m, n), Sub(m, 2 * n));
  }

  lemma {:induction false} HighestBit(x: nat) returns (m: nat)
    ensures x < Pow2(m)
    ensures x > 0 ==> m > 0 && Pow2(m - 1) <= x
    ensures x == 0 ==> m == 0
  {
    if x == 0 {
      m := 0;
    } else {
      m := HighestBit(x / 2);
      m := m + 1;
    }
  }

  const WORD := 0x1_0000_0000_0000_0000

  /** The least power of two that is at least value; 0 where that is no 64-bit number, and for 0. */
  method NextPowOfTwo(value: nat) returns (result: nat)
    requires value < WORD
    ensures 1 <= value <= 0x8000_0000_0000_0000 ==> IsPow2(result) && value <= result < 2 * value
    ensures 1 <= value <= 0x8000_0000_0000_0000 ==> forall k: nat :: value <= Pow2(k) ==> result <= Pow2(k)
    ensures value == 0 || value > 0x8000_0000_0000_0000 ==> result == 0
  {
    hide Or, Shr, OnesDownTo, Pow2;
    var x := (value - 1) % WORD;
    ghost var m := HighestBit(x);
    FitsIn64Bits(x, m);
    HighestIsOne(x, m);
    SmearStep(x, m, 1);
    x := Or(x, Shr(x, 1));
    SmearStep(x, m, 2);
    x := Or(x, Shr(x, 2));
    SmearStep(x, m, 4);
    x := Or(x, Shr(x, 4));
    SmearStep(x, m, 8);
    x := Or(x, Shr(x, 8));
    SmearStep(x, m, 16);
    x := Or(x, Shr(x, 16));
    SmearStep(x, m, 32);
    x := Or(x, Shr(x, 32));
    LeastPow2(value, x, m);
    assert IsPow2(Pow2(m));
    return (x + 1) % WORD;
  }

  lemma HighestIsOne(x: nat, m: nat)
    requires x < Pow2(m) && (m > 0 ==> Pow2(m - 1) <= x)
    ensures OnesDownTo(x, m, Sub(m, 1))
  {
  }

  /** m ones, as many as value - 1 has bits. */
  lemma LeastPow2(value: nat, ones: nat, m: nat)
    requires value < WORD && OnesDownTo(ones, m, 0) && m <= 64
    requires var x := (value - 1) % WORD; x < Pow2(m) && (m > 0 ==> Pow2(m - 1) <= x) && (x == 0 ==> m == 0)
    ensures ones + 1 == Pow2(m) <= WORD
    ensures 1 <= value <= 0x8000_0000_0000_0000 ==> Pow2(m) < WORD && value <= Pow2(m) < 2 * value
    ensures 1 <= value <= 0x8000_0000_0000_0000 ==> forall k: nat :: value <= Pow2(k) ==> Pow2(m) <= Pow2(k)
    ensures value == 0 || value > 0x8000_0000_0000_0000 ==> Pow2(m) == WORD
  {
    hide Pow2;
    Pow2Bounds(m);
    forall k: nat | 1 <= value <= Pow2(k) ensures Pow2(m) <= Pow2(k) {
      if k < m {
        Pow2Monotone(k, m - 1);
      } else {
        Pow2Monotone(m, k);
      }
    }
  }

  lemma Pow2Bounds(m: nat)
    requires m <= 64
    ensures Pow2(0) == 1 && Pow2(m) <= WORD
    ensures m > 0 ==> Pow2(m) == 2 * Pow2(m - 1)
    ensures if m < 64 then Pow2(m) <= 0x8000_0000_0000_0000 else Pow2(m) == WORD && Pow2(m - 1) == 0x8000_0000_0000_0000
  {
    Pow2Of63();
    Pow2Monotone(m, 64);
    if m < 64 {
      Pow2Monotone(m, 63);
    }
  }

  lemma Pow2Plus7(k: nat)
    ensures Pow2(k + 7) == 128 * Pow2(k)
  {
    assert Pow2(k + 2) == 4 * Pow2(k);
    assert Pow2(k + 4) == 4 * Pow2(k + 2);
    assert Pow2(k + 6) == 4 * Pow2(k + 4);
  }

  lemma Pow2Plus21(k: nat)
    ensures Pow2(k + 21) == 0x20_0000 * Pow2(k)
  {
    Pow2Plus7(k);
    Pow2Plus7(k + 7);
    Pow2Plus7(k + 14);
  }

  lemma Pow2Of63()
    ensures Pow2(63) == 0x8000_0000_0000_0000
  {
    Pow2Plus21(0);
    Pow2Plus21(21);
    Pow2Plus21(42);
  }

  lemma FitsIn64Bits(x: nat, m: nat)
    requires x < WORD && (m > 0 ==> Pow2(m - 1) <= x)
    ensures m <= 64
  {
    if m > 64 {
      Pow2Of63();
      assert Pow2(64) == WORD;
      Pow2Monotone(64, m - 1);
    }
  }
}
