/** The server's run of weapons and bullets: cooldown, lifetime, and how many bullets a player can have. */
module SpaceshipsServer {
  import opened Options
  import opened SpaceshipsFiring

  /** `FIXED_TIMESTEP_HZ / 5` and `FIXED_TIMESTEP_HZ * 2` for 64 ticks a second. */
  const COOLDOWN := 12
  const LIFETIME := 128

  // ----- The despawner -----

  datatype Bullet = Bullet(shot: Shot, isPredicted: bool, isPrespawned: bool, isDeterministic: bool)

  predicate Expired(b: Bullet, tick: Tick, lifetime: int, isServer: bool) {
    TickDiff(tick, b.shot.tick) > lifetime && (isServer || b.isPredicted || b.isPrespawned || b.isDeterministic)
  }

  /** The bullets left by the despawner, in their order. */
  function Unexpired(bullets: seq<Bullet>, tick: Tick, lifetime: int, isServer: bool): seq<Bullet> {
    if bullets == [] then []
    else
      var n := |bullets| - 1;
      Unexpired(bullets[..n], tick, lifetime, isServer)
      + if Expired(bullets[n], tick, lifetime, isServer) then [] else [bullets[n]]
  }

  /** This application leaves the bullet: it is not older than its lifetime, or neither the server nor a client that
      predicts it may despawn it. */
  predicate Stays(b: Bullet, tick: Tick, lifetime: int, isServer: bool) {
    tick - b.shot.tick <= lifetime || !(isServer || b.isPredicted || b.isPrespawned || b.isDeterministic)
  }

  /** In every application the despawner leaves exactly those, as often as they were there. */
  lemma {:induction false} UnexpiredExactly(bullets: seq<Bullet>, tick: Tick, lifetime: int, isServer: bool, b: Bullet)
    requires 0 <= lifetime < 0x7fff_ffff
    ensures multiset(Unexpired(bullets, tick, lifetime, isServer))[b]
         == if Stays(b, tick, lifetime, isServer) then multiset(bullets)[b] else 0
  {
    if bullets != [] {
      var n := |bullets| - 1;
      UnexpiredExactly(bullets[..n], tick, lifetime, isServer, b);
      CountAppend(bullets[..n], [bullets[n]], b);
      assert bullets == bullets[..n] + [bullets[n]];
      StaysUnlessExpired(bullets[n], tick, lifetime, isServer);
      CountAppend(Unexpired(bullets[..n], tick, lifetime, isServer),
                  if Expired(bullets[n], tick, lifetime, isServer) then [] else [bullets[n]], b);
    }
  }

  lemma CountAppend(a: seq<Bullet>, more: seq<Bullet>, b: Bullet)
    requires |more| <= 1
    ensures multiset(a + more)[b] == multiset(a)[b] + if more == [b] then 1 else 0
  {
    assert multiset(a + more) == multiset(a) + multiset(more);
    assert more != [] ==> multiset(more) == multiset{more[0]};
  }

  lemma StaysUnlessExpired(b: Bullet, tick: Tick, lifetime: int, isServer: bool)
    requires 0 <= lifetime < 0x7fff_ffff
    ensures Stays(b, tick, lifetime, isServer) <==> !Expired(b, tick, lifetime, isServer)
  {
  }

  class BulletWorld {
    var bullets: seq<Bullet>

    constructor (bullets: seq<Bullet>)
      ensures this.bullets == bullets
    {
      this.bullets := bullets;
    }

    /** Collects what has outlived its lifetime; the despawns take effect at the end of the system. */
    method LifetimeDespawner(tick: Tick, lifetime: int, isServer: bool)
      modifies this
      ensures bullets == Unexpired(old(bullets), tick, lifetime, isServer)
    {
      var left := [];
      for n := 0 to |bullets|
        invariant bullets == old(bullets)
        invariant left == Unexpired(bullets[..n], tick, lifetime, isServer)
      {
        assert bullets[..n + 1][..n] == bullets[..n];
        if !Expired(bullets[n], tick, lifetime, isServer) {
          left := left + [bullets[n]];
        }
      }
      assert bullets[..|bullets|] == bullets;
      bullets := left;
    }
  }

  // ----- One tick of the server -----

  /** Weapons of the connected players, live bullets, and every bullet ever fired, oldest first. */
  datatype State = State(weapons: map<Id, Weapon>, live: seq<Shot>, log: seq<Shot>)

  /** What happens around a tick: players who disconnect and connect before it, who holds Fire, and bullets lost to
      collisions. Who is in both `leaving` and `joining` reconnects. */
  datatype Event = Event(leaving: set<Id>, joining: set<Id>, pressed: set<Id>, hits: set<Shot>)

  function ServerPlayer(weapon: Weapon, pressed: bool): Player {
    Player(pressed, InputBuffer(map[], None), weapon, None, false, false, false, true)
  }

  /** The player gets a new ship, and with it a new weapon. */
  predicate Fresh(weapons: map<Id, Weapon>, e: Event, id: Id) {
    id in e.joining && (id !in weapons || id in e.leaving)
  }

  /** A disconnected player's ship is despawned, bullets stay; a player who connects gets a weapon that never fired. */
  function Connected(weapons: map<Id, Weapon>, e: Event, cooldown: nat): map<Id, Weapon> {
    map id | id in (weapons.Keys - e.leaving) + e.joining ::
      if Fresh(weapons, e, id) then Weapon(0, cooldown) else weapons[id]
  }

  function ServerShooters(weapons: map<Id, Weapon>, e: Event, tick: Tick): set<Id> {
    Shooters(Server, map id | id in weapons :: ServerPlayer(weapons[id], id in e.pressed), tick)
  }

  function WeaponsAfter(weapons: map<Id, Weapon>, shooters: set<Id>, tick: Tick): map<Id, Weapon> {
    map id | id in weapons :: if id in shooters then Weapon(tick, weapons[id].cooldown) else weapons[id]
  }

  function Keep(shots: seq<Shot>, tick: Tick, lifetime: int, hits: set<Shot>): seq<Shot> {
    if shots == [] then []
    else (if TickDiff(tick, shots[0].tick) > lifetime || shots[0] in hits then [] else [shots[0]])
         + Keep(shots[1..], tick, lifetime, hits)
  }

  /** One tick of `SharedPlayerFiring` on the server, then expiry and collisions. */
  ghost predicate Ticks(s: State, s': State, e: Event, tick: Tick, cooldown: nat, lifetime: int) {
    var weapons := Connected(s.weapons, e, cooldown);
    var shooters := ServerShooters(weapons, e, tick);
    && s'.weapons == WeaponsAfter(weapons, shooters, tick)
    && exists shots: seq<Shot> ::
         && ShotsInOrder(shooters, shots, tick)
         && s'.log == s.log + shots
         && s'.live == Keep(s.live + shots, tick, lifetime, e.hits)
  }

  /** The weapons of a tick are those the firing system leaves. */
  lemma WeaponsAreFired(weapons: map<Id, Weapon>, e: Event, tick: Tick, id: Id)
    requires id in weapons
    ensures var players := map k | k in weapons :: ServerPlayer(weapons[k], k in e.pressed);
            AllAfterFiring(Server, players, tick)[id].weapon
            == WeaponsAfter(weapons, ServerShooters(weapons, e, tick), tick)[id]
  {
    var players := map k | k in weapons :: ServerPlayer(weapons[k], k in e.pressed);
    IsShooter(Server, players, id, tick);
  }

  function ShotsIn(bullets: seq<Bullet>): seq<Shot> {
    seq(|bullets|, i requires 0 <= i < |bullets| => bullets[i].shot)
  }

  lemma {:induction false} KeepAppend(shots: seq<Shot>, x: Shot, tick: Tick, lifetime: int, hits: set<Shot>)
    ensures Keep(shots + [x], tick, lifetime, hits)
         == Keep(shots, tick, lifetime, hits) + Keep([x], tick, lifetime, hits)
  {
    if shots == [] {
      assert shots + [x] == [x];
    } else {
      assert (shots + [x])[1..] == shots[1..] + [x];
      KeepAppend(shots[1..], x, tick, lifetime, hits);
    }
  }

  /** What the run keeps of bullets nobody hit is what the despawner leaves on a server. */
  lemma {:induction false} KeepIsDespawner(bullets: seq<Bullet>, tick: Tick, lifetime: int)
    ensures ShotsIn(Unexpired(bullets, tick, lifetime, true)) == Keep(ShotsIn(bullets), tick, lifetime, {})
  {
    if bullets != [] {
      var n := |bullets| - 1;
      var x := bullets[n].shot;
      KeepIsDespawner(bullets[..n], tick, lifetime);
      assert ShotsIn(bullets) == ShotsIn(bullets[..n]) + [x];
      KeepAppend(ShotsIn(bullets[..n]), x, tick, lifetime, {});
      assert [x][1..] == [];
    }
  }

  /** The server fires for a weapon fired in the past exactly when Fire is held and more than the cooldown has passed,
      unless the difference saturates: then the weapon does not fire any more. */
  lemma ServerFiresIff(weapon: Weapon, pressed: bool, tick: Tick)
    requires weapon.lastFireTick <= tick
    ensures Fires(Server, ServerPlayer(weapon, pressed), tick) <==>
            pressed && weapon.cooldown < tick - weapon.lastFireTick < 0x8000_0000
  {
    ServerFiresExactly(Server, ServerPlayer(weapon, pressed), tick);
  }

  /** The demo's values: with Fire held, a weapon that fired at a tick fires again 13 ticks later and not before; and a
      bullet is there up to 128 ticks after its shot and gone then. */
  lemma DemoTiming(fired: Tick, tick: Tick, shot: Shot, hits: set<Shot>)
    requires fired <= tick < 0x7fff_ffff && shot.tick == fired && hits == {}
    ensures Fires(Server, ServerPlayer(Weapon(fired, COOLDOWN), true), tick) <==> tick - fired >= 13
    ensures Keep([shot], tick, LIFETIME, hits) == if tick - fired <= 128 then [shot] else []
  {
    ServerFiresIff(Weapon(fired, COOLDOWN), true, tick);
    assert [shot][1..] == [];
  }

  // ----- Spacing -----

  /** Later shots of one owner come more than `gap` ticks after earlier ones; with gap 0, no two shots share owner
      and tick. */
  ghost predicate SpacedByOwner(shots: seq<Shot>, gap: nat) {
    shots == [] ||
    ((forall y :: y in shots[1..] && y.owner == shots[0].owner ==> y.tick - shots[0].tick > gap)
     && SpacedByOwner(shots[1..], gap))
  }

  lemma {:induction false} SpacedMembers(shots: seq<Shot>, gap: nat, x: Shot, y: Shot)
    requires SpacedByOwner(shots, gap) && x in shots && y in shots && x.owner == y.owner && x.tick < y.tick
    ensures y.tick - x.tick > gap
  {
    assert shots == [shots[0]] + shots[1..];
    if x != shots[0] && y != shots[0] {
      SpacedMembers(shots[1..], gap, x, y);
    }
  }

  lemma {:induction false} SpacedIsDistinct(shots: seq<Shot>, gap: nat, i: nat, j: nat)
    requires SpacedByOwner(shots, gap) && i < j < |shots|
    ensures shots[i] != shots[j]
    decreases |shots|
  {
    if i == 0 {
      assert shots[j] == shots[1..][j - 1];
    } else {
      SpacedIsDistinct(shots[1..], gap, i - 1, j - 1);
    }
  }

  lemma {:induction false} KeepIsSubsequence(shots: seq<Shot>, tick: Tick, lifetime: int, hits: set<Shot>)
    ensures forall x :: x in Keep(shots, tick, lifetime, hits) <==>
                        x in shots && TickDiff(tick, x.tick) <= lifetime && x !in hits
  {
    if shots != [] {
      KeepIsSubsequence(shots[1..], tick, lifetime, hits);
      assert shots == [shots[0]] + shots[1..];
    }
  }

  lemma {:induction false} KeepKeepsSpacing(shots: seq<Shot>, tick: Tick, lifetime: int, hits: set<Shot>, gap: nat)
    requires SpacedByOwner(shots, gap)
    ensures SpacedByOwner(Keep(shots, tick, lifetime, hits), gap)
  {
    if shots != [] {
      var rest := Keep(shots[1..], tick, lifetime, hits);
      KeepKeepsSpacing(shots[1..], tick, lifetime, hits, gap);
      KeepIsSubsequence(shots[1..], tick, lifetime, hits);
      if !(TickDiff(tick, shots[0].tick) > lifetime || shots[0] in hits) {
        assert ([shots[0]] + rest)[1..] == rest;
      } else {
        assert [] + rest == rest;
      }
    }
  }

  lemma {:induction false} AppendKeepsSpacing(shots: seq<Shot>, more: seq<Shot>, gap: nat)
    requires SpacedByOwner(shots, gap) && SpacedByOwner(more, gap)
    requires forall x, y :: x in shots && y in more && x.owner == y.owner ==> y.tick - x.tick > gap
    ensures SpacedByOwner(shots + more, gap)
  {
    if shots == [] {
      assert shots + more == more;
    } else {
      assert (shots + more)[1..] == shots[1..] + more;
      AppendKeepsSpacing(shots[1..], more, gap);
    }
  }

  lemma {:induction false} AscendingShotsAreSpaced(ids: seq<Id>, tick: Tick, gap: nat)
    requires Ascending(ids)
    ensures SpacedByOwner(ShotsBy(ids, tick), gap)
  {
    if ids != [] {
      AscendingShotsAreSpaced(ids[1..], tick, gap);
      assert ShotsBy(ids, tick)[1..] == ShotsBy(ids[1..], tick);
    }
  }

  lemma ShotsOfShooters(shooters: set<Id>, shots: seq<Shot>, tick: Tick, gap: nat)
    requires ShotsInOrder(shooters, shots, tick)
    ensures SpacedByOwner(shots, gap)
    ensures forall y :: y in shots <==> y.owner in shooters && y.tick == tick
  {
    var ids: seq<Id> :| shots == ShotsBy(ids, tick) && Ascending(ids) && forall id :: id in ids <==> id in shooters;
    AscendingShotsAreSpaced(ids, tick, gap);
    forall y: Shot | y.owner in shooters && y.tick == tick ensures y in shots {
      var i :| 0 <= i < |ids| && ids[i] == y.owner;
      assert shots[i] == y;
    }
  }

  lemma SpacingIsKept(log: seq<Shot>, live: seq<Shot>, shots: seq<Shot>, hits: set<Shot>, tick: Tick, gap: nat,
                      lifetime: int)
    requires SpacedByOwner(log, gap) && SpacedByOwner(live, gap) && SpacedByOwner(shots, gap)
    requires forall x :: x in live ==> x in log
    requires forall x, y :: x in log && y in shots && x.owner == y.owner ==> y.tick - x.tick > gap
    ensures SpacedByOwner(log + shots, gap)
    ensures SpacedByOwner(Keep(live + shots, tick, lifetime, hits), gap)
  {
    AppendKeepsSpacing(log, shots, gap);
    AppendKeepsSpacing(live, shots, gap);
    KeepKeepsSpacing(live + shots, tick, lifetime, hits, gap);
  }

  // ----- The invariant -----

  /** From tick `next` on, the weapon cannot fire within `gap` ticks of the shot: it has not fired before that shot, or
      the gap is over, or it is a new weapon at a tick too late for it. */
  predicate Apart(x: Shot, weapon: Weapon, next: int, gap: nat) {
    x.tick <= weapon.lastFireTick || next - x.tick > gap || (next >= 0x8000_0000 && weapon.lastFireTick == 0)
  }

  ghost predicate WeaponsFit(weapons: map<Id, Weapon>, log: seq<Shot>, next: int, cooldown: nat, gap: nat) {
    && (forall id :: id in weapons ==> weapons[id].cooldown == cooldown && weapons[id].lastFireTick < next)
    && (forall x :: x in log && x.owner in weapons ==> Apart(x, weapons[x.owner], next, gap))
  }

  ghost predicate Inv(s: State, now: Tick, cooldown: nat, lifetime: int, gap: nat) {
    && WeaponsFit(s.weapons, s.log, now + 1, cooldown, gap)
    && (forall x :: x in s.log ==> cooldown < x.tick <= now)
    && (forall x :: x in s.live ==> x in s.log && now - x.tick <= lifetime)
    && SpacedByOwner(s.log, gap) && SpacedByOwner(s.live, gap)
  }

  /** Whoever gets a new weapon at the tick has not fired within the last `gap` ticks; or the tick is one at which a new
      weapon cannot fire. */
  predicate RestedJoins(s: State, e: Event, tick: Tick, gap: nat) {
    forall x :: x in s.log && Fresh(s.weapons, e, x.owner) ==> tick - x.tick > gap || tick >= 0x8000_0000
  }

  lemma ConnectingFits(s: State, e: Event, now: Tick, tick: Tick, cooldown: nat, gap: nat)
    requires WeaponsFit(s.weapons, s.log, now + 1, cooldown, gap) && now < tick && RestedJoins(s, e, tick, gap)
    ensures WeaponsFit(Connected(s.weapons, e, cooldown), s.log, tick, cooldown, gap)
  {
    var weapons := Connected(s.weapons, e, cooldown);
    forall x | x in s.log && x.owner in weapons ensures Apart(x, weapons[x.owner], tick, gap) {
      if !Fresh(s.weapons, e, x.owner) {
        assert Apart(x, s.weapons[x.owner], now + 1, gap);
      }
    }
  }

  lemma ShootersAreApart(weapons: map<Id, Weapon>, e: Event, log: seq<Shot>, tick: Tick, cooldown: nat, gap: nat)
    requires WeaponsFit(weapons, log, tick, cooldown, gap) && gap <= cooldown
    ensures ServerShooters(weapons, e, tick) <= weapons.Keys
    ensures forall x :: x in log && x.owner in ServerShooters(weapons, e, tick) ==> tick - x.tick > gap
    ensures ServerShooters(weapons, e, tick) != {} ==> tick > cooldown
  {
    forall id | id in ServerShooters(weapons, e, tick)
      ensures cooldown < tick - weapons[id].lastFireTick < 0x8000_0000
    {
      ServerFiresIff(weapons[id], id in e.pressed, tick);
    }
    forall x | x in log && x.owner in ServerShooters(weapons, e, tick) ensures tick - x.tick > gap {
      assert Apart(x, weapons[x.owner], tick, gap);
    }
  }

  lemma FiringFits(weapons: map<Id, Weapon>, shooters: set<Id>, log: seq<Shot>, shots: seq<Shot>, tick: Tick,
                   cooldown: nat, gap: nat)
    requires WeaponsFit(weapons, log, tick, cooldown, gap)
    requires forall x :: x in log ==> x.tick <= tick
    requires forall y :: y in shots ==> y.owner in shooters && y.tick == tick
    ensures WeaponsFit(WeaponsAfter(weapons, shooters, tick), log + shots, tick + 1, cooldown, gap)
  {
    var after := WeaponsAfter(weapons, shooters, tick);
    forall x | x in log + shots && x.owner in after ensures Apart(x, after[x.owner], tick + 1, gap) {
      if x.owner !in shooters {
        assert Apart(x, weapons[x.owner], tick, gap);
      }
    }
  }

  lemma LiveIsKept(log: seq<Shot>, live: seq<Shot>, shots: seq<Shot>, tick: Tick, lifetime: int, hits: set<Shot>)
    requires 0 <= lifetime < 0x7fff_ffff
    requires forall x :: x in live ==> x in log
    ensures forall x :: x in Keep(live + shots, tick, lifetime, hits) ==>
                        x in log + shots && tick - x.tick <= lifetime
  {
    KeepIsSubsequence(live + shots, tick, lifetime, hits);
  }

  /** Every tick at which whoever gets a new weapon is rested keeps the invariant. */
  lemma TickKeepsInv(s: State, s': State, e: Event, now: Tick, tick: Tick, cooldown: nat, lifetime: int, gap: nat)
    requires Inv(s, now, cooldown, lifetime, gap) && now < tick && 0 <= lifetime < 0x7fff_ffff && gap <= cooldown
    requires Ticks(s, s', e, tick, cooldown, lifetime) && RestedJoins(s, e, tick, gap)
    ensures Inv(s', tick, cooldown, lifetime, gap)
  {
    var weapons := Connected(s.weapons, e, cooldown);
    var shooters := ServerShooters(weapons, e, tick);
    var shots: seq<Shot> :| ShotsInOrder(shooters, shots, tick)
      && s'.log == s.log + shots && s'.live == Keep(s.live + shots, tick, lifetime, e.hits);
    ConnectingFits(s, e, now, tick, cooldown, gap);
    ShootersAreApart(weapons, e, s.log, tick, cooldown, gap);
    ShotsOfShooters(shooters, shots, tick, gap);
    FiringFits(weapons, shooters, s.log, shots, tick, cooldown, gap);
    SpacingIsKept(s.log, s.live, shots, e.hits, tick, gap, lifetime);
    LiveIsKept(s.log, s.live, shots, tick, lifetime, e.hits);
  }

  /** A player who fires at a tick does so once, so without any condition no two bullets share owner and tick. */
  lemma AllJoinsAreRestedForZero(s: State, e: Event, now: Tick, tick: Tick, cooldown: nat, lifetime: int, gap: nat)
    requires Inv(s, now, cooldown, lifetime, gap) && now < tick
    ensures RestedJoins(s, e, tick, 0)
  {
  }

  lemma TickExists(s: State, e: Event, tick: Tick, cooldown: nat, lifetime: int) returns (s': State)
    ensures Ticks(s, s', e, tick, cooldown, lifetime)
  {
    var weapons := Connected(s.weapons, e, cooldown);
    var shooters := ServerShooters(weapons, e, tick);
    var ids := AscendingOf(shooters);
    var shots := ShotsBy(ids, tick);
    assert ShotsInOrder(shooters, shots, tick);
    s' := State(WeaponsAfter(weapons, shooters, tick), Keep(s.live + shots, tick, lifetime, e.hits), s.log + shots);
  }

  /** Shots are logged and never forgotten. */
  lemma TickLogs(s: State, s': State, e: Event, tick: Tick, cooldown: nat, lifetime: int)
    requires Ticks(s, s', e, tick, cooldown, lifetime)
    ensures s'.weapons.Keys == Connected(s.weapons, e, cooldown).Keys
    ensures forall x :: x in s'.log <==>
      x in s.log || (x.tick == tick && x.owner in ServerShooters(Connected(s.weapons, e, cooldown), e, tick))
  {
    var shooters := ServerShooters(Connected(s.weapons, e, cooldown), e, tick);
    var shots: seq<Shot> :| ShotsInOrder(shooters, shots, tick)
      && s'.log == s.log + shots && s'.live == Keep(s.live + shots, tick, lifetime, e.hits);
    ShotsOfShooters(shooters, shots, tick, 0);
  }

  /** The same players leave and join. */
  predicate SameTraffic(e: Event, e': Event) {
    e.leaving == e'.leaving && e.joining == e'.joining
  }

  /** Whatever is pressed and hit at the tick, shots stay spaced. */
  ghost predicate AlwaysSpacedAfter(s: State, e: Event, tick: Tick, cooldown: nat, lifetime: int, gap: nat) {
    forall e', s' :: SameTraffic(e, e') && Ticks(s, s', e', tick, cooldown, lifetime) ==> SpacedByOwner(s'.log, gap)
  }

  /** A tick before which players leave and join keeps every press pattern spaced if and only if those who get a new
      weapon have not fired within the gap. */
  lemma SpacedIffRested(s: State, e: Event, now: Tick, tick: Tick, cooldown: nat, lifetime: int, gap: nat)
    requires Inv(s, now, cooldown, lifetime, gap) && now < tick && 0 <= lifetime < 0x7fff_ffff && gap <= cooldown
    ensures AlwaysSpacedAfter(s, e, tick, cooldown, lifetime, gap) <==> RestedJoins(s, e, tick, gap)
  {
    if RestedJoins(s, e, tick, gap) {
      forall e', s' | SameTraffic(e, e') && Ticks(s, s', e', tick, cooldown, lifetime)
        ensures SpacedByOwner(s'.log, gap)
      {
        TickKeepsInv(s, s', e', now, tick, cooldown, lifetime, gap);
      }
    } else {
      var x :| x in s.log && Fresh(s.weapons, e, x.owner) && tick - x.tick <= gap && tick < 0x8000_0000;
      var e' := e.(pressed := {x.owner});
      var s' := TickExists(s, e', tick, cooldown, lifetime);
      FreshFires(s, s', e', tick, cooldown, lifetime, x.owner);
      if SpacedByOwner(s'.log, gap) {
        SpacedMembers(s'.log, gap, x, Shot(x.owner, tick));
      }
    }
  }

  /** A new weapon fires at the first tick at which Fire is held and the game is older than the cooldown. */
  lemma FreshFires(s: State, s': State, e: Event, tick: Tick, cooldown: nat, lifetime: int, id: Id)
    requires Ticks(s, s', e, tick, cooldown, lifetime) && Fresh(s.weapons, e, id) && id in e.pressed
    requires cooldown < tick < 0x8000_0000
    ensures Shot(id, tick) in s'.log && forall x :: x in s.log ==> x in s'.log
  {
    TickLogs(s, s', e, tick, cooldown, lifetime);
    ServerFiresIff(Weapon(0, cooldown), true, tick);
  }

  // ----- Bounds -----

  /** The ticks at which `owner` fired the given shots. */
  function TicksOf(shots: seq<Shot>, owner: Id): seq<Tick> {
    if shots == [] then []
    else (if shots[0].owner == owner then [shots[0].tick] else []) + TicksOf(shots[1..], owner)
  }

  lemma {:induction false} TicksOfAreShots(shots: seq<Shot>, owner: Id)
    ensures forall t :: t in TicksOf(shots, owner) <==> Shot(owner, t) in shots
  {
    if shots != [] {
      TicksOfAreShots(shots[1..], owner);
      assert shots == [shots[0]] + shots[1..];
    }
  }

  ghost predicate SpacedTicks(ticks: seq<Tick>, gap: nat) {
    forall i, j :: 0 <= i < j < |ticks| ==> ticks[j] - ticks[i] >= (j - i) * (gap + 1)
  }

  lemma PrependTick(t: Tick, ticks: seq<Tick>, gap: nat)
    requires SpacedTicks(ticks, gap) && (ticks != [] ==> ticks[0] - t > gap)
    ensures SpacedTicks([t] + ticks, gap)
  {
    var longer := [t] + ticks;
    forall i, j | 0 <= i < j < |longer| ensures longer[j] - longer[i] >= (j - i) * (gap + 1) {
      if i > 0 {
        assert ticks[j - 1] - ticks[i - 1] >= ((j - 1) - (i - 1)) * (gap + 1);
      } else if j > 1 {
        assert ticks[j - 1] - ticks[0] >= (j - 1) * (gap + 1);
        assert j * (gap + 1) == (j - 1) * (gap + 1) + (gap + 1);
      }
    }
  }

  lemma {:induction false} TicksOfSpaced(shots: seq<Shot>, owner: Id, gap: nat)
    requires SpacedByOwner(shots, gap)
    ensures SpacedTicks(TicksOf(shots, owner), gap)
  {
    if shots != [] {
      TicksOfSpaced(shots[1..], owner, gap);
      var rest := TicksOf(shots[1..], owner);
      if shots[0].owner == owner {
        TicksOfAreShots(shots[1..], owner);
        if rest != [] {
          assert rest[0] in rest;
          assert Shot(owner, rest[0]) in shots[1..];
        }
        PrependTick(shots[0].tick, rest, gap);
      } else {
        assert TicksOf(shots, owner) == rest;
      }
    }
  }

  lemma CountFromSpan(n: nat, gap: nat, lifetime: nat)
    requires n > 0 && (n - 1) * (gap + 1) <= lifetime
    ensures n <= lifetime / (gap + 1) + 1
  {
    var d := gap + 1;
    var q := lifetime / d;
    assert n - 1 > q ==> (n - 1) * d >= (q + 1) * d;
  }

  /** Spaced ticks within a lifetime are few. */
  lemma FewTicks(ticks: seq<Tick>, gap: nat, lifetime: nat)
    requires SpacedTicks(ticks, gap)
    requires forall s, t :: s in ticks && t in ticks ==> t - s <= lifetime
    ensures |ticks| <= lifetime / (gap + 1) + 1
  {
    if ticks != [] {
      var last := |ticks| - 1;
      assert ticks[0] in ticks && ticks[last] in ticks;
      SpanOfTicks(ticks, gap);
      CountFromSpan(|ticks|, gap, lifetime);
    }
  }

  lemma SpanOfTicks(ticks: seq<Tick>, gap: nat)
    requires SpacedTicks(ticks, gap) && ticks != []
    ensures ticks[|ticks| - 1] - ticks[0] >= (|ticks| - 1) * (gap + 1)
  {
    var last := |ticks| - 1;
    if last > 0 {
      assert ticks[last] - ticks[0] >= (last - 0) * (gap + 1);
    }
  }

  /** After every tick a player has at most `lifetime / (gap + 1) + 1` live bullets. */
  lemma FewLiveBullets(s: State, now: Tick, cooldown: nat, lifetime: nat, gap: nat, owner: Id)
    requires Inv(s, now, cooldown, lifetime, gap)
    ensures |TicksOf(s.live, owner)| <= lifetime / (gap + 1) + 1
  {
    var ticks := TicksOf(s.live, owner);
    TicksOfSpaced(s.live, owner, gap);
    TicksOfAreShots(s.live, owner);
    forall t, t' | t in ticks && t' in ticks ensures t' - t <= lifetime {
      assert Shot(owner, t) in s.live && Shot(owner, t') in s.live;
    }
    FewTicks(ticks, gap, lifetime);
  }
}
