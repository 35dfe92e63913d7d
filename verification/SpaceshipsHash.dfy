/** The identity hash of a prespawned bullet: a 64-bit mixer over the owner's bits and the firing tick. */
module SpaceshipsHash {
  import opened Bits

  const MUL1 := 0xbf58_476d_1ce4_e5b9
  const MUL2 := 0x94d0_49bb_1331_11eb

  /** The inverses of the two multipliers modulo 2^64. */
  const INV1 := 0x96de_1b17_3f11_9089
  const INV2 := 0x3196_42b2_d24d_8ec3

  /** A u64. */
  type Word = a: Bits | |a| == 64 witness Zeros(64)

  /** A u32. */
  type TickBits = a: Bits | |a| == 32 witness Zeros(32)

  function WrappingMul(a: Word, m: nat): Word {
    ToBits((Value(a) * m) % WORD, 64)
  }

  function XorShift(x: Word, n: nat): Word {
    Xor(x, Shr(x, n))
  }

  function Finalize(x: Word): Word {
    XorShift(WrappingMul(XorShift(WrappingMul(XorShift(x, 30), MUL1), 27), MUL2), 31)
  }

  function AsWord(tick: TickBits): Word {
    tick + Zeros(32)
  }

  function ShiftedLeft32(tick: TickBits): Word {
    Zeros(32) + tick
  }

  function BulletPrespawnHash(owner: Word, tick: TickBits): Word {
    Finalize(Xor(Xor(owner, ShiftedLeft32(tick)), AsWord(tick)))
  }

  // ----- Undoing the mixer -----

  function Unshift(v: Word, n: nat): Word {
    Xor(Xor(v, Shr(v, n)), Shr(v, n + n))
  }

  function Unfinalize(h: Word): Word {
    Unshift(WrappingMul(Unshift(WrappingMul(Unshift(h, 31), INV2), 27), INV1), 30)
  }

  lemma ModuloOfShifted(x: nat, t: int)
    requires x < WORD
    ensures (x + WORD * t) % WORD == x
  {
  }

  lemma ProductOfInverses(x: nat, mul: nat, inv: nat)
    requires x < WORD && (mul * inv) % WORD == 1
    ensures (((x * mul) % WORD) * inv) % WORD == x
  {
    var q, k := (mul * inv) / WORD, (x * mul) / WORD;
    var y := (x * mul) % WORD;
    calc {
      y * inv;
      (x * mul - WORD * k) * inv;
      x * (mul * inv) - WORD * (k * inv);
      x * (WORD * q + 1) - WORD * (k * inv);
      x + WORD * (x * q - k * inv);
    }
    ModuloOfShifted(x, x * q - k * inv);
  }

  lemma WrappingMulInverts(x: Word, mul: nat, inv: nat)
    requires (mul * inv) % WORD == 1
    ensures WrappingMul(WrappingMul(x, mul), inv) == x
  {
    WordBound();
    ValueBound(x);
    ValueInvertsToBits((Value(x) * mul) % WORD, 64);
    ProductOfInverses(Value(x), mul, inv);
    ToBitsInvertsValue(x);
  }

  lemma MultipliersAreUnits()
    ensures (MUL1 * INV1) % WORD == 1
    ensures (MUL2 * INV2) % WORD == 1
  {
  }

  /** The mixer is a bijection: the input can be read back from the hash. */
  lemma UnfinalizeInverts(x: Word)
    ensures Unfinalize(Finalize(x)) == x
  {
    MultipliersAreUnits();
    var a := XorShift(x, 30);
    var b := WrappingMul(a, MUL1);
    var c := XorShift(b, 27);
    var d := WrappingMul(c, MUL2);
    XorShiftInverts(d, 31);
    WrappingMulInverts(c, MUL2, INV2);
    XorShiftInverts(b, 27);
    WrappingMulInverts(a, MUL1, INV1);
    XorShiftInverts(x, 30);
  }

  // ----- Bit by bit -----

  /** `b` is `a` exclusive or `a` shifted right. */
  ghost predicate IsXorShift(a: Word, b: Word, n: nat) {
    forall i :: 0 <= i < 64 ==> b[i] == (a[i] != (i + n < 64 && a[i + n]))
  }

  /** `b` is `a` times `m` modulo 2^64. */
  predicate IsProduct(a: Word, b: Word, m: nat) {
    Value(b) == (Value(a) * m) % 0x1_0000_0000_0000_0000
  }

  /** The hash bit by bit: the tick is laid over both halves of the owner, then come the three rounds with their shifts
      and multipliers. */
  lemma HashIsMixed(owner: Word, tick: TickBits) returns (x: Word, a: Word, b: Word, c: Word, d: Word)
    ensures forall i :: 0 <= i < 32 ==> x[i] == (owner[i] != tick[i]) && x[32 + i] == (owner[32 + i] != tick[i])
    ensures IsXorShift(x, a, 30) && IsProduct(a, b, 0xbf58_476d_1ce4_e5b9)
    ensures IsXorShift(b, c, 27) && IsProduct(c, d, 0x94d0_49bb_1331_11eb)
    ensures IsXorShift(d, BulletPrespawnHash(owner, tick), 31)
  {
    x := Xor(Xor(owner, ShiftedLeft32(tick)), AsWord(tick));
    TickOverBothHalves(owner, tick);
    a := XorShift(x, 30);
    b := WrappingMul(a, MUL1);
    c := XorShift(b, 27);
    d := WrappingMul(c, MUL2);
    ShiftIsXorShift(x, 30);
    MulIsProduct(a, MUL1);
    ShiftIsXorShift(b, 27);
    MulIsProduct(c, MUL2);
    ShiftIsXorShift(d, 31);
  }

  lemma TickOverBothHalves(owner: Word, tick: TickBits)
    ensures var x := Xor(Xor(owner, ShiftedLeft32(tick)), AsWord(tick));
            forall i :: 0 <= i < 32 ==> x[i] == (owner[i] != tick[i]) && x[32 + i] == (owner[32 + i] != tick[i])
  {
    InputIsSpread(owner, tick);
  }

  lemma ShiftIsXorShift(a: Word, n: nat)
    ensures IsXorShift(a, XorShift(a, n), n)
  {
  }

  lemma MulIsProduct(a: Word, m: nat)
    ensures IsProduct(a, WrappingMul(a, m), m)
  {
    WordBound();
    ValueInvertsToBits((Value(a) * m) % WORD, 64);
  }

  // ----- Collisions -----

  lemma InputIsSpread(owner: Word, tick: TickBits)
    ensures Xor(Xor(owner, ShiftedLeft32(tick)), AsWord(tick)) == Xor(owner, tick + tick)
  {
  }

  lemma EqualInputs(owner: Word, tick: TickBits, owner': Word, tick': TickBits)
    ensures Xor(owner, tick + tick) == Xor(owner', tick' + tick')
       <==> Xor(owner, owner') == Xor(tick, tick') + Xor(tick, tick')
  {
    var a, b := Xor(owner, tick + tick), Xor(owner', tick' + tick');
    var l, r := Xor(owner, owner'), Xor(tick, tick') + Xor(tick, tick');
    assert forall i :: 0 <= i < 64 ==> (a[i] == b[i] <==> l[i] == r[i]);
    if a == b {
      assert l == r;
    }
    if l == r {
      assert a == b;
    }
  }

  /** Exactly which shots share a hash: those whose owners differ, in both halves, by the difference of their ticks. */
  lemma CollisionsExactly(owner: Word, tick: TickBits, owner': Word, tick': TickBits)
    ensures BulletPrespawnHash(owner, tick) == BulletPrespawnHash(owner', tick')
       <==> Xor(owner, owner') == Xor(tick, tick') + Xor(tick, tick')
  {
    InputIsSpread(owner, tick);
    InputIsSpread(owner', tick');
    UnfinalizeInverts(Xor(owner, tick + tick));
    UnfinalizeInverts(Xor(owner', tick' + tick'));
    EqualInputs(owner, tick, owner', tick');
  }

  /** Owners of 32 bits: the hash identifies the shot, owner and tick. */
  lemma HashIsInjective(owner: Word, tick: TickBits, owner': Word, tick': TickBits)
    requires owner[32..] == Zeros(32) && owner'[32..] == Zeros(32)
    ensures BulletPrespawnHash(owner, tick) == BulletPrespawnHash(owner', tick') <==> owner == owner' && tick == tick'
  {
    CollisionsExactly(owner, tick, owner', tick');
    var l, r := Xor(owner, owner'), Xor(tick, tick') + Xor(tick, tick');
    if l == r {
      forall i | 0 <= i < 32 ensures tick[i] == tick'[i] {
        assert owner[32 + i] == owner[32..][i] && owner'[32 + i] == owner'[32..][i];
        assert l[32 + i] == r[32 + i];
      }
      assert tick == tick';
      forall i | 0 <= i < 64 ensures owner[i] == owner'[i] {
        assert l[i] == r[i];
      }
      assert owner == owner';
    }
  }

  /** Any owners: shots of one owner, and shots of one tick, never share a hash. */
  lemma HashIsInjectiveInEach(owner: Word, tick: TickBits, owner': Word, tick': TickBits)
    requires owner == owner' || tick == tick'
    ensures BulletPrespawnHash(owner, tick) == BulletPrespawnHash(owner', tick') <==> owner == owner' && tick == tick'
  {
    CollisionsExactly(owner, tick, owner', tick');
    XorZeroIffEqual(owner, owner');
    XorZeroIffEqual(tick, tick');
    assert Zeros(32) + Zeros(32) == Zeros(64);
    if Xor(owner, owner') == Xor(tick, tick') + Xor(tick, tick') && owner == owner' {
      assert Xor(tick, tick') == (Xor(tick, tick') + Xor(tick, tick'))[..32] == Zeros(32);
    }
  }

  /** For every owner and every other tick there is an owner whose shot at that tick has the same hash. */
  lemma WideOwnersCollide(owner: Word, tick: TickBits, tick': TickBits)
    ensures var other: Word := Xor(owner, Xor(tick, tick') + Xor(tick, tick'));
            BulletPrespawnHash(owner, tick) == BulletPrespawnHash(other, tick')
  {
    var other: Word := Xor(owner, Xor(tick, tick') + Xor(tick, tick'));
    CollisionsExactly(owner, tick, other, tick');
    assert Xor(owner, other) == Xor(tick, tick') + Xor(tick, tick');
  }
}
