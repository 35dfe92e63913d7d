/** The prespawn hash of the fps example: a multiplicative hash of the player, the tick on top. */
module FpsHash {
  import opened Bits

  const FACTOR := 1_000_003

  /** The first player whose product wraps around. */
  const FIRST_WRAP := 18_446_688_733_644

  function WrappingProduct(player: nat): nat {
    (player * FACTOR) % WORD
  }

  function BulletPrespawnHash(player: nat, tick: nat): Bits {
    Xor(ToBits(WrappingProduct(player), 64), ToBits(tick, 64))
  }

  lemma TickBound()
    ensures Pow2(19) == 0x8_0000
  {
    assert Pow2(3) == 8;
    QuarterWord();
    Pow2Adds(3, 16);
  }

  lemma XorKeepsHighBits(a: Bits, b: Bits)
    requires |a| == |b| == 64 && b[19..] == Zeros(45)
    ensures Xor(a, b)[19..] == a[19..]
  {
    forall i | 0 <= i < 45 ensures Xor(a, b)[19..][i] == a[19..][i] {
      assert b[19 + i] == b[19..][i];
    }
  }

  /** The tick only touches the low 19 bits. */
  lemma HighBitsArePlayers(player: nat, tick: nat)
    requires tick < 0x8_0000
    ensures BulletPrespawnHash(player, tick)[19..] == ToBits(Halved(WrappingProduct(player), 19), 45)
  {
    HighBits(WrappingProduct(player), 64, 19);
    TickBound();
    SmallHasLowBitsOnly(tick, 64, 19);
    XorKeepsHighBits(ToBits(WrappingProduct(player), 64), ToBits(tick, 64));
  }

  lemma CloseProducts(player: nat, player': nat)
    requires player < FIRST_WRAP && player' < FIRST_WRAP
    requires -0x8_0000 < WrappingProduct(player) - WrappingProduct(player') < 0x8_0000
    ensures player == player'
  {
    assert WrappingProduct(player) == player * FACTOR && WrappingProduct(player') == player' * FACTOR;
  }

  lemma SamePlayer(player: nat, tick: nat, player': nat, tick': nat)
    requires player < FIRST_WRAP && player' < FIRST_WRAP
    requires tick < 0x8_0000 && tick' < 0x8_0000
    requires BulletPrespawnHash(player, tick) == BulletPrespawnHash(player', tick')
    ensures player == player'
  {
    var p, p' := WrappingProduct(player), WrappingProduct(player');
    HighBitsArePlayers(player, tick);
    HighBitsArePlayers(player', tick');
    TickBound();
    WordBound();
    HalvedBound(p, 19, 45);
    HalvedBound(p', 19, 45);
    ToBitsIsInjective(Halved(p, 19), Halved(p', 19), 45);
    HalvedAreClose(p, p', 19);
    CloseProducts(player, player');
  }

  lemma SameTick(a: Bits, tick: nat, tick': nat)
    requires |a| == 64 && tick < WORD && tick' < WORD
    requires Xor(a, ToBits(tick, 64)) == Xor(a, ToBits(tick', 64))
    ensures tick == tick'
  {
    var b, b' := ToBits(tick, 64), ToBits(tick', 64);
    forall i | 0 <= i < 64 ensures b[i] == b'[i] {
      assert Xor(a, b)[i] == Xor(a, b')[i];
    }
    assert b == b';
    WordBound();
    ToBitsIsInjective(tick, tick', 64);
  }

  /** With players whose products do not wrap, which includes all of 44 bits, and 19-bit ticks, the hash identifies the
      shot: the products of two players are too far apart for the ticks to bridge. */
  lemma HashIsInjective(player: nat, tick: nat, player': nat, tick': nat)
    requires player < FIRST_WRAP && player' < FIRST_WRAP
    requires tick < 0x8_0000 && tick' < 0x8_0000
    ensures BulletPrespawnHash(player, tick) == BulletPrespawnHash(player', tick') <==>
            player == player' && tick == tick'
  {
    if BulletPrespawnHash(player, tick) == BulletPrespawnHash(player', tick') {
      SamePlayer(player, tick, player', tick');
      SameTick(ToBits(WrappingProduct(player), 64), tick, tick');
    }
  }

  lemma XorWithZero(a: Bits)
    ensures Xor(a, Zeros(|a|)) == a == Xor(Zeros(|a|), a)
  {
  }

  lemma XorPrepends(a: bool, s: Bits, b: bool, t: Bits)
    requires |s| == |t|
    ensures Xor([a] + s, [b] + t) == [a != b] + Xor(s, t)
  {
  }

  /** A number with one more bit set above all others differs from it in that bit alone. */
  lemma {:induction false} TopBit(k: nat, rest: nat, width: nat)
    requires rest < Pow2(k)
    ensures Xor(ToBits(Pow2(k) + rest, width), ToBits(rest, width)) == ToBits(Pow2(k), width)
    decreases width
  {
    if k == 0 {
      ToBitsOfZero(width);
      XorWithZero(ToBits(1, width));
    } else if width > 0 {
      var n := Pow2(k) + rest;
      TopBit(k - 1, rest / 2, width - 1);
      assert n / 2 == Pow2(k - 1) + rest / 2 && n % 2 == rest % 2;
      XorPrepends(n % 2 == 1, ToBits(n / 2, width - 1), rest % 2 == 1, ToBits(rest / 2, width - 1));
    }
  }

  /** A player whose product has bit 19 as its highest: the tick can take the rest away. */
  lemma HashesToBit(player: nat, rest: nat)
    requires rest < 0x8_0000 && WrappingProduct(player) == 0x8_0000 + rest
    ensures BulletPrespawnHash(player, rest) == ToBits(0x8_0000, 64)
  {
    TickBound();
    TopBit(19, rest, 64);
  }

  /** Player 0 at tick 2^19 hashes like player 1 at tick 475715, and so does the first player to wrap around at tick
      125028. */
  lemma HashCollides()
    ensures BulletPrespawnHash(0, 0x8_0000) == BulletPrespawnHash(1, 475_715)
    ensures BulletPrespawnHash(FIRST_WRAP, 125_028) == BulletPrespawnHash(1, 475_715)
  {
    assert WrappingProduct(0) == 0 && WrappingProduct(1) == FACTOR;
    ToBitsOfZero(64);
    XorWithZero(ToBits(0x8_0000, 64));
    HashesToBit(1, 475_715);
    HashesToBit(FIRST_WRAP, 125_028);
  }

  /** No two shots by players below one bound at ticks below another share a hash. */
  ghost predicate IdentifiesShots(players: nat, ticks: nat) {
    forall player: nat, tick: nat, player': nat, tick': nat ::
      && player < players && player' < players && tick < ticks && tick' < ticks
      && BulletPrespawnHash(player, tick) == BulletPrespawnHash(player', tick')
      ==> player == player' && tick == tick'
  }

  lemma SmallShotsAreIdentified(players: nat, ticks: nat)
    requires players <= FIRST_WRAP && ticks <= 0x8_0000
    ensures IdentifiesShots(players, ticks)
  {
    forall player: nat, tick: nat, player': nat, tick': nat |
      && player < players && player' < players && tick < ticks && tick' < ticks
      && BulletPrespawnHash(player, tick) == BulletPrespawnHash(player', tick')
      ensures player == player' && tick == tick'
    {
      HashIsInjective(player, tick, player', tick');
    }
  }

  /** How far the hash can tell shots apart, for any two players or more: as long as no product wraps, exactly up to
      ticks of 19 bits; and with ticks of 19 bits, or any bound above 475715, exactly as long as no product wraps. */
  lemma IdentifiesIff(players: nat, ticks: nat)
    requires players >= 2
    ensures players <= FIRST_WRAP ==> (IdentifiesShots(players, ticks) <==> ticks <= 0x8_0000)
    ensures ticks > 475_715 ==> (IdentifiesShots(players, ticks) <==> players <= FIRST_WRAP && ticks <= 0x8_0000)
  {
    if players <= FIRST_WRAP && ticks <= 0x8_0000 {
      SmallShotsAreIdentified(players, ticks);
    } else {
      HashCollides();
    }
  }
}
