/** Unsigned machine words as sequences of bits, least significant first, and their values. */
module Bits {

  type Bits = seq<bool>

  /** The number of 64-bit words. */
  const WORD := 0x1_0000_0000_0000_0000

  function Pow2(n: nat): (r: nat)
    ensures r > 0
  {
    if n == 0 then 1 else 2 * Pow2(n - 1)
  }

  lemma {:induction false} Pow2Adds(m: nat, n: nat)
    ensures Pow2(m + n) == Pow2(m) * Pow2(n)
  {
    if m > 0 {
      Pow2Adds(m - 1, n);
      DoubleProduct(Pow2(m - 1), Pow2(n));
    }
  }

  lemma DoubleProduct(a: nat, b: nat)
    ensures (2 * a) * b == 2 * (a * b)
  {
  }

  lemma QuarterWord()
    ensures Pow2(16) == 0x1_0000
  {
    assert Pow2(8) == 256;
    Pow2Adds(8, 8);
  }

  lemma HalfWord()
    ensures Pow2(32) == 0x1_0000_0000
  {
    QuarterWord();
    Pow2Adds(16, 16);
  }

  lemma WordBound()
    ensures Pow2(64) == WORD
  {
    HalfWord();
    Pow2Adds(32, 32);
  }

  function Zeros(n: nat): Bits {
    seq(n, _ => false)
  }

  function Xor(a: Bits, b: Bits): Bits
    requires |a| == |b|
  {
    seq(|a|, i requires 0 <= i < |a| => a[i] != b[i])
  }

  function Shr(a: Bits, n: nat): Bits {
    seq(|a|, i requires 0 <= i < |a| => i + n < |a| && a[i + n])
  }

  function Value(a: Bits): nat {
    if a == [] then 0 else (if a[0] then 1 else 0) + 2 * Value(a[1..])
  }

  /** The `width` lowest bits of `n`. */
  function ToBits(n: nat, width: nat): (r: Bits)
    ensures |r| == width
    decreases width
  {
    if width == 0 then [] else [n % 2 == 1] + ToBits(n / 2, width - 1)
  }

  lemma {:induction false} ValueBound(a: Bits)
    ensures Value(a) < Pow2(|a|)
  {
    if a != [] {
      ValueBound(a[1..]);
    }
  }

  lemma {:induction false} ToBitsInvertsValue(a: Bits)
    ensures ToBits(Value(a), |a|) == a
  {
    if a != [] {
      ToBitsInvertsValue(a[1..]);
      assert Value(a) / 2 == Value(a[1..]);
    }
  }

  lemma {:induction false} ValueInvertsToBits(n: nat, width: nat)
    requires n < Pow2(width)
    ensures Value(ToBits(n, width)) == n
    decreases width
  {
    if width > 0 {
      ValueInvertsToBits(n / 2, width - 1);
      assert ToBits(n, width)[1..] == ToBits(n / 2, width - 1);
    }
  }

  lemma XorZeroIffEqual(a: Bits, b: Bits)
    requires |a| == |b|
    ensures Xor(a, b) == Zeros(|a|) <==> a == b
  {
    if Xor(a, b) == Zeros(|a|) {
      forall i | 0 <= i < |a| ensures a[i] == b[i] {
        assert Xor(a, b)[i] == Zeros(|a|)[i];
      }
      assert a == b;
    }
  }

  /** Exclusive or with a shifted copy of itself loses nothing of a word three shifts long or less. */
  lemma XorShiftInverts(x: Bits, n: nat)
    requires 3 * n >= |x|
    ensures var v := Xor(x, Shr(x, n)); Xor(Xor(v, Shr(v, n)), Shr(v, n + n)) == x
  {
  }

  /** `n` without its `low` lowest bits. */
  function Halved(n: nat, low: nat): nat
    decreases low
  {
    if low == 0 then n else Halved(n / 2, low - 1)
  }

  lemma {:induction false} HighBits(n: nat, width: nat, low: nat)
    requires low <= width
    ensures ToBits(n, width)[low..] == ToBits(Halved(n, low), width - low)
    decreases low
  {
    if low > 0 {
      HighBits(n / 2, width - 1, low - 1);
      assert ToBits(n, width)[low..] == ToBits(n / 2, width - 1)[low - 1..];
    }
  }

  lemma {:induction false} HalvedBound(n: nat, low: nat, high: nat)
    requires n < Pow2(low + high)
    ensures Halved(n, low) < Pow2(high)
    decreases low
  {
    if low > 0 {
      HalvedBound(n / 2, low - 1, high);
    }
  }

  lemma {:induction false} HalvedAreClose(m: nat, n: nat, low: nat)
    requires Halved(m, low) == Halved(n, low)
    ensures m < n + Pow2(low) && n < m + Pow2(low)
    decreases low
  {
    if low > 0 {
      HalvedAreClose(m / 2, n / 2, low - 1);
    }
  }

  lemma {:induction false} ToBitsOfZero(width: nat)
    ensures ToBits(0, width) == Zeros(width)
    decreases width
  {
    if width > 0 {
      ToBitsOfZero(width - 1);
    }
  }

  lemma SmallHasLowBitsOnly(n: nat, width: nat, low: nat)
    requires low <= width && n < Pow2(low)
    ensures ToBits(n, width)[low..] == Zeros(width - low)
  {
    HighBits(n, width, low);
    HalvedBound(n, low, 0);
    ToBitsOfZero(width - low);
  }

  lemma ToBitsIsInjective(m: nat, n: nat, width: nat)
    requires m < Pow2(width) && n < Pow2(width)
    ensures ToBits(m, width) == ToBits(n, width) <==> m == n
  {
    ValueInvertsToBits(m, width);
    ValueInvertsToBits(n, width);
  }
}
