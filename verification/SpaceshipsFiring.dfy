/** Firing in the spaceships demo: who may fire at a tick, in which order shots are spawned, and why P2P peers agree. */
module SpaceshipsFiring {
  import opened Options

  // ----- Ticks -----

  /** A u32. */
  type Tick = n: int | 0 <= n < 0x1_0000_0000

  /** The difference of two ticks saturates to the range of an i32. */
  function TickDiff(a: Tick, b: Tick): int {
    if a - b < -0x8000_0000 then -0x8000_0000
    else if a - b > 0x7fff_ffff then 0x7fff_ffff
    else a - b
  }

  /** `i32::abs`: the smallest i32 has no positive counterpart and stays as it is. */
  function AbsI32(d: int): int {
    if d == -0x8000_0000 || d >= 0 then d else -d
  }

  function Previous(tick: Tick): Tick {
    if tick == 0 then 0 else tick - 1
  }

  // ----- One player -----

  datatype Weapon = Weapon(lastFireTick: Tick, cooldown: nat)

  /** For each tick sampled, whether Fire was pressed; and the last tick received from a remote peer. */
  datatype InputBuffer = InputBuffer(samples: map<Tick, bool>, lastRemoteTick: Option<Tick>)

  datatype Topology = Undefined | Client | Server | HostClient | P2P

  /** The row a player gives to the firing query; `confirmed` is the fire tick in the confirmed weapon, if any. */
  datatype Player = Player(
    pressed: bool,
    buffer: InputBuffer,
    weapon: Weapon,
    confirmed: Option<Tick>,
    isLocal: bool,
    isPredicted: bool,
    isDeterministic: bool,
    isControlled: bool)

  predicate IsServer(mode: Topology) {
    mode.Server? || mode.HostClient?
  }

  predicate ClientShouldFire(buffer: InputBuffer, weapon: Weapon, tick: Tick, allowInitialFire: bool,
                             requireRemoteInput: bool) {
    if !allowInitialFire && weapon.lastFireTick == 0 then false
    else if requireRemoteInput && (buffer.lastRemoteTick.None? || buffer.lastRemoteTick.value < tick) then false
    else
      var currentPressed := tick in buffer.samples && buffer.samples[tick];
      var hasPreviousSample := Previous(tick) in buffer.samples;
      currentPressed && hasPreviousSample
  }

  /** The later of the local and the confirmed fire tick. */
  function EffectiveLastFireTick(weapon: Weapon, confirmed: Option<Tick>): (r: Tick)
    ensures r >= weapon.lastFireTick && (confirmed.Some? ==> r >= confirmed.value)
    ensures r == weapon.lastFireTick || confirmed == Some(r)
  {
    if confirmed.Some? && TickDiff(confirmed.value, weapon.lastFireTick) > 0 then confirmed.value
    else weapon.lastFireTick
  }

  predicate ShouldFire(mode: Topology, p: Player, tick: Tick) {
    p.pressed &&
    match mode
    case Server => p.isControlled
    case HostClient => p.isControlled
    case Client =>
      && (p.isPredicted || p.isDeterministic)
      && ClientShouldFire(p.buffer, p.weapon, tick, p.isDeterministic || !p.isLocal, !p.isLocal)
    case P2P => p.isDeterministic && ClientShouldFire(p.buffer, p.weapon, tick, true, !p.isLocal)
    case Undefined => false
  }

  predicate OnCooldown(lastFireTick: Tick, tick: Tick, cooldown: nat) {
    AbsI32(TickDiff(lastFireTick, tick)) <= cooldown
  }

  predicate Fires(mode: Topology, p: Player, tick: Tick) {
    && ShouldFire(mode, p, tick)
    && var last := if IsServer(mode) then p.weapon.lastFireTick else EffectiveLastFireTick(p.weapon, p.confirmed);
       !OnCooldown(last, tick, p.weapon.cooldown)
  }

  function Fired(p: Player, tick: Tick): Player {
    p.(weapon := p.weapon.(lastFireTick := tick))
  }

  function AfterFiring(mode: Topology, p: Player, tick: Tick): Player {
    if Fires(mode, p, tick) then Fired(p, tick) else p
  }

  // ----- All players -----

  /** The bits of a peer's id, which are the same on every application. */
  type Id = nat

  datatype Shot = Shot(owner: Id, tick: Tick)

  /** `order` lists the players, each once. */
  ghost predicate Lists(order: seq<Id>, players: map<Id, Player>) {
    && (forall id :: id in order <==> id in players)
    && forall i, j :: 0 <= i < j < |order| ==> order[i] != order[j]
  }

  ghost predicate Ascending(ids: seq<Id>) {
    forall i, j :: 0 <= i < j < |ids| ==> ids[i] < ids[j]
  }

  function Insert(sorted: seq<Id>, id: Id): (r: seq<Id>)
    requires Ascending(sorted) && id !in sorted
    ensures Ascending(r)
    ensures forall k :: k in r <==> k in sorted || k == id
  {
    if sorted == [] || id < sorted[0] then [id] + sorted
    else
      assert sorted == [sorted[0]] + sorted[1..];
      var rest := Insert(sorted[1..], id);
      PrependAscends(sorted[0], rest);
      [sorted[0]] + rest
  }

  lemma PrependAscends(id: Id, rest: seq<Id>)
    requires Ascending(rest) && forall k :: k in rest ==> id < k
    ensures Ascending([id] + rest)
  {
    assert forall i :: 0 <= i < |rest| ==> rest[i] in rest;
  }

  /** `sort_by_key` on the players' ids. */
  function Sort(order: seq<Id>): (r: seq<Id>)
    requires forall i, j :: 0 <= i < j < |order| ==> order[i] != order[j]
    ensures Ascending(r)
    ensures forall k :: k in r <==> k in order
  {
    if order == [] then []
    else
      assert order == [order[0]] + order[1..];
      Insert(Sort(order[1..]), order[0])
  }

  lemma RestOfAscending(a: seq<Id>)
    requires Ascending(a) && a != []
    ensures forall k :: k in a[1..] <==> k in a && k != a[0]
    ensures forall k :: k in a ==> a[0] <= k
  {
    assert a == [a[0]] + a[1..];
  }

  /** Sorting leaves nothing of the order the players were found in. */
  lemma {:induction false} AscendingIsUnique(a: seq<Id>, b: seq<Id>)
    requires Ascending(a) && Ascending(b)
    requires forall k :: k in a <==> k in b
    ensures a == b
  {
    assert a != [] ==> a[0] in b;
    assert b != [] ==> b[0] in a;
    if a != [] {
      RestOfAscending(a);
      RestOfAscending(b);
      AscendingIsUnique(a[1..], b[1..]);
    }
  }

  /** The players that fire at the tick. */
  function Shooters(mode: Topology, players: map<Id, Player>, tick: Tick): set<Id> {
    set id | id in players && Fires(mode, players[id], tick)
  }

  /** The ids of `ids` that are in `wanted`, in order. */
  function Only(ids: seq<Id>, wanted: set<Id>): seq<Id> {
    if ids == [] then []
    else
      var n := |ids| - 1;
      Only(ids[..n], wanted) + if ids[n] in wanted then [ids[n]] else []
  }

  lemma {:induction false} OnlyIsAscending(ids: seq<Id>, wanted: set<Id>)
    requires Ascending(ids)
    ensures Ascending(Only(ids, wanted))
    ensures forall id :: id in Only(ids, wanted) <==> id in ids && id in wanted
  {
    if ids != [] {
      var n := |ids| - 1;
      assert ids == ids[..n] + [ids[n]];
      OnlyIsAscending(ids[..n], wanted);
      var front := Only(ids[..n], wanted);
      assert forall i :: 0 <= i < |front| ==> front[i] in front;
    }
  }

  function ShotsBy(ids: seq<Id>, tick: Tick): seq<Shot> {
    seq(|ids|, i requires 0 <= i < |ids| => Shot(ids[i], tick))
  }

  /** One shot for every shooter, by increasing id. */
  ghost predicate ShotsInOrder(shooters: set<Id>, shots: seq<Shot>, tick: Tick) {
    exists ids: seq<Id> ::
      shots == ShotsBy(ids, tick) && Ascending(ids) && forall id :: id in ids <==> id in shooters
  }

  /** The members of a set by increasing id. */
  ghost function AscendingOf(ids: set<Id>): (r: seq<Id>)
    ensures Ascending(r)
    ensures forall id :: id in r <==> id in ids
  {
    if ids == {} then []
    else
      var id :| id in ids;
      Insert(AscendingOf(ids - {id}), id)
  }

  function AllAfterFiring(mode: Topology, players: map<Id, Player>, tick: Tick): map<Id, Player> {
    map id | id in players :: AfterFiring(mode, players[id], tick)
  }

  function AfterTurn(players: map<Id, Player>, id: Id, shooters: set<Id>, tick: Tick): Player
    requires id in players
  {
    if id in shooters then Fired(players[id], tick) else players[id]
  }

  lemma IsShooter(mode: Topology, players: map<Id, Player>, id: Id, tick: Tick)
    requires id in players
    ensures id in Shooters(mode, players, tick) <==> Fires(mode, players[id], tick)
  {
  }

  /** The first `n` players had their turn, the others not yet. */
  ghost predicate TurnsTaken(before: map<Id, Player>, players: map<Id, Player>, sorted: seq<Id>, n: nat,
                             shooters: set<Id>, tick: Tick) {
    && n <= |sorted|
    && players.Keys == before.Keys
    && (forall i :: 0 <= i < |sorted| ==> sorted[i] in before)
    && (forall i :: n <= i < |sorted| ==> players[sorted[i]] == before[sorted[i]])
    && (forall i :: 0 <= i < n ==> players[sorted[i]] == AfterTurn(before, sorted[i], shooters, tick))
  }

  lemma NextTurn(before: map<Id, Player>, players: map<Id, Player>, players': map<Id, Player>, sorted: seq<Id>, n: nat,
                 shooters: set<Id>, tick: Tick)
    requires Ascending(sorted) && n < |sorted| && TurnsTaken(before, players, sorted, n, shooters, tick)
    requires players' ==
      if sorted[n] in shooters then players[sorted[n] := Fired(players[sorted[n]], tick)] else players
    ensures TurnsTaken(before, players', sorted, n + 1, shooters, tick)
  {
    assert forall i :: 0 <= i < |sorted| && i != n ==> sorted[i] != sorted[n];
  }

  lemma NextShot(ids: seq<Id>, n: nat, shooters: set<Id>, tick: Tick)
    requires n < |ids|
    ensures ShotsBy(Only(ids[..n + 1], shooters), tick)
         == ShotsBy(Only(ids[..n], shooters), tick) + if ids[n] in shooters then [Shot(ids[n], tick)] else []
  {
    assert ids[..n + 1][..n] == ids[..n];
  }

  /** Whether a player fires does not depend on the turns of the others. */
  lemma TurnIsOwn(mode: Topology, before: map<Id, Player>, players: map<Id, Player>, sorted: seq<Id>, n: nat,
                  tick: Tick)
    requires n < |sorted| && TurnsTaken(before, players, sorted, n, Shooters(mode, before, tick), tick)
    ensures sorted[n] in players
    ensures sorted[n] in Shooters(mode, before, tick) <==> Fires(mode, players[sorted[n]], tick)
  {
    IsShooter(mode, before, sorted[n], tick);
  }

  lemma AllTurnsTaken(mode: Topology, before: map<Id, Player>, after: map<Id, Player>, sorted: seq<Id>, tick: Tick)
    requires forall id :: id in sorted <==> id in before
    requires TurnsTaken(before, after, sorted, |sorted|, Shooters(mode, before, tick), tick)
    ensures after == AllAfterFiring(mode, before, tick)
  {
    forall id | id in before ensures after[id] == AllAfterFiring(mode, before, tick)[id] {
      var i :| 0 <= i < |sorted| && sorted[i] == id;
      IsShooter(mode, before, id, tick);
    }
  }

  lemma ShotsOfTurns(sorted: seq<Id>, shooters: set<Id>, tick: Tick)
    requires Ascending(sorted) && forall id :: id in shooters ==> id in sorted
    ensures ShotsInOrder(shooters, ShotsBy(Only(sorted, shooters), tick), tick)
  {
    OnlyIsAscending(sorted, shooters);
  }

  class FiringSystem {
    var players: map<Id, Player>

    constructor (players: map<Id, Player>)
      ensures this.players == players
    {
      this.players := players;
    }

    /** `order` is the order in which this application's archetypes yield the players. */
    method SharedPlayerFiring(order: seq<Id>, mode: Topology, synced: bool, tick: Tick) returns (shots: seq<Shot>)
      requires Lists(order, players)
      modifies this
      ensures IsServer(mode) || synced ==> players == AllAfterFiring(mode, old(players), tick)
      ensures IsServer(mode) || synced ==> ShotsInOrder(Shooters(mode, old(players), tick), shots, tick)
      ensures !IsServer(mode) && !synced ==> players == old(players) && shots == []
    {
      shots := [];
      if !IsServer(mode) && !synced {
        return;
      }
      shots := FireInOrder(Sort(order), mode, tick);
    }

    /** The loop over the sorted players. */
    method FireInOrder(sorted: seq<Id>, mode: Topology, tick: Tick) returns (shots: seq<Shot>)
      requires Ascending(sorted) && forall id :: id in sorted <==> id in players
      modifies this
      ensures players == AllAfterFiring(mode, old(players), tick)
      ensures ShotsInOrder(Shooters(mode, old(players), tick), shots, tick)
    {
      shots := [];
      ghost var before := players;
      for n := 0 to |sorted|
        invariant TurnsTaken(before, players, sorted, n, Shooters(mode, before, tick), tick)
        invariant shots == ShotsBy(Only(sorted[..n], Shooters(mode, before, tick)), tick)
      {
        ghost var soFar := players;
        TurnIsOwn(mode, before, soFar, sorted, n, tick);
        var fired := FireOne(sorted[n], mode, tick);
        NextTurn(before, soFar, players, sorted, n, Shooters(mode, before, tick), tick);
        NextShot(sorted, n, Shooters(mode, before, tick), tick);
        if fired {
          shots := shots + [Shot(sorted[n], tick)];
        }
      }
      assert sorted[..|sorted|] == sorted;
      ShotsOfTurns(sorted, Shooters(mode, before, tick), tick);
      AllTurnsTaken(mode, before, players, sorted, tick);
    }

    /** The body of the loop: fires for one player unless it is not allowed to or on cooldown. */
    method FireOne(id: Id, mode: Topology, tick: Tick) returns (fired: bool)
      requires id in players
      modifies this
      ensures fired == Fires(mode, old(players)[id], tick)
      ensures players == if fired then old(players)[id := Fired(old(players)[id], tick)] else old(players)
    {
      var p := players[id];
      fired := false;
      if ShouldFire(mode, p, tick) {
        var last := if IsServer(mode) then p.weapon.lastFireTick else EffectiveLastFireTick(p.weapon, p.confirmed);
        if !OnCooldown(last, tick, p.weapon.cooldown) {
          players := players[id := p.(weapon := p.weapon.(lastFireTick := tick))];
          fired := true;
        }
      }
    }
  }

  /** The shots of a tick do not depend on the order the players were found in: any two systems that meet the
      contract of `SharedPlayerFiring` on the same players spawn the same sequence of shots. */
  lemma ShotsInOrderAreUnique(shooters: set<Id>, shots: seq<Shot>, shots': seq<Shot>, tick: Tick)
    requires ShotsInOrder(shooters, shots, tick) && ShotsInOrder(shooters, shots', tick)
    ensures shots == shots'
  {
    var ids: seq<Id> :|
      shots == ShotsBy(ids, tick) && Ascending(ids) && forall id :: id in ids <==> id in shooters;
    var ids': seq<Id> :|
      shots' == ShotsBy(ids', tick) && Ascending(ids') && forall id :: id in ids' <==> id in shooters;
    AscendingIsUnique(ids, ids');
  }

  /** Ticks since a shot count while their difference fits an i32; beyond that the weapon stays on cooldown. */
  predicate CooledDown(lastFireTick: Tick, tick: Tick, cooldown: nat) {
    cooldown < tick - lastFireTick < 0x8000_0000 || (lastFireTick - tick > cooldown && cooldown < 0x7fff_ffff)
  }

  /** On a dedicated or host server, holding Fire fires exactly when the player is controlled and the weapon has cooled
      down; in an application without a network nothing fires. */
  lemma ServerFiresExactly(mode: Topology, p: Player, tick: Tick)
    requires mode == Server || mode == HostClient
    ensures Fires(mode, p, tick) <==>
            p.pressed && p.isControlled && CooledDown(p.weapon.lastFireTick, tick, p.weapon.cooldown)
    ensures !Fires(Undefined, p, tick)
  {
  }

  /** The sample of the tick says pressed, and the tick before is sampled too. */
  predicate FireIsSampled(samples: map<Tick, bool>, tick: Tick) {
    tick in samples && samples[tick] && (tick == 0 || (tick - 1) in samples)
  }

  predicate InputHasArrived(p: Player, tick: Tick) {
    p.isLocal || (p.buffer.lastRemoteTick.Some? && p.buffer.lastRemoteTick.value >= tick)
  }

  /** The weapon has cooled down since the later of its local and confirmed shot. */
  predicate CooledDownSinceBoth(p: Player, tick: Tick) {
    var local := p.weapon.lastFireTick;
    CooledDown(if p.confirmed.Some? && p.confirmed.value > local then p.confirmed.value else local, tick,
               p.weapon.cooldown)
  }

  /** A conventional client fires exactly for a predicted or deterministic player for whom Fire is held and was sampled
      for this tick, the sample before being known, whose inputs have arrived if it is remote, and whose weapon has
      cooled down since the later of its local and confirmed shot; for its own predicted player only once the weapon has
      fired before. */
  lemma ClientFiresExactly(p: Player, tick: Tick)
    ensures Fires(Client, p, tick) <==>
            && (p.isPredicted || p.isDeterministic) && p.pressed
            && FireIsSampled(p.buffer.samples, tick) && InputHasArrived(p, tick)
            && (p.isLocal && !p.isDeterministic ==> p.weapon.lastFireTick != 0)
            && CooledDownSinceBoth(p, tick)
  {
  }

  /** In P2P a deterministic player fires on the same conditions, its first shot included. */
  lemma P2PFiresExactly(p: Player, tick: Tick)
    ensures Fires(P2P, p, tick) <==>
            && p.isDeterministic && p.pressed
            && FireIsSampled(p.buffer.samples, tick) && InputHasArrived(p, tick)
            && CooledDownSinceBoth(p, tick)
  {
  }

  // ----- Runs of a conventional client -----

  /** What a client has at a tick: the input of its own player, and what arrived from the server: a weapon restored by a
      rollback, and the fire tick in the confirmed weapon. */
  datatype ClientTick = ClientTick(pressed: bool, buffer: InputBuffer, restored: Option<Tick>, confirmed: Option<Tick>)

  function OwnPlayer(weapon: Weapon, i: ClientTick): Player {
    var now := if i.restored.Some? then weapon.(lastFireTick := i.restored.value) else weapon;
    Player(i.pressed, i.buffer, now, i.confirmed, true, true, false, true)
  }

  /** The weapon of the client's own player after the run. */
  function OwnWeapon(weapon: Weapon, run: seq<ClientTick>, start: nat): Weapon
    requires start + |run| < 0x1_0000_0000
  {
    if run == [] then weapon
    else
      var n := |run| - 1;
      AfterFiring(Client, OwnPlayer(OwnWeapon(weapon, run[..n], start), run[n]), start + n).weapon
  }

  /** Whether the client's own player fires with a weapon last fired at `last`: it has fired before and cooled down
      since the later of its local and confirmed shot, Fire is held and sampled. */
  predicate OwnFires(last: Tick, cooldown: nat, i: ClientTick, tick: Tick) {
    && i.pressed && FireIsSampled(i.buffer.samples, tick) && last != 0
    && CooledDown(if i.confirmed.Some? && i.confirmed.value > last then i.confirmed.value else last, tick, cooldown)
  }

  lemma OwnFiresExactly(weapon: Weapon, i: ClientTick, tick: Tick)
    ensures var last := if i.restored.Some? then i.restored.value else weapon.lastFireTick;
            AfterFiring(Client, OwnPlayer(weapon, i), tick).weapon
            == Weapon(if OwnFires(last, weapon.cooldown, i, tick) then tick else last, weapon.cooldown)
  {
    ClientFiresExactly(OwnPlayer(weapon, i), tick);
  }

  /** A tick of such a run: the weapon, as restored by a rollback if there was one, has fired at this tick exactly if
      its player fires, and is otherwise as it was. */
  lemma OwnTick(weapon: Weapon, run: seq<ClientTick>, start: nat)
    requires run != [] && start + |run| < 0x1_0000_0000
    ensures var n := |run| - 1;
            var before := OwnWeapon(weapon, run[..n], start);
            var last := if run[n].restored.Some? then run[n].restored.value else before.lastFireTick;
            OwnWeapon(weapon, run, start)
            == Weapon(if OwnFires(last, before.cooldown, run[n], start + n) then start + n else last, before.cooldown)
  {
    var n := |run| - 1;
    var tick: Tick, before := start + n, OwnWeapon(weapon, run[..n], start);
    OwnFiresExactly(before, run[n], tick);
    assert OwnWeapon(weapon, run, start) == AfterFiring(Client, OwnPlayer(before, run[n]), tick).weapon;
  }

  /** Over every run of a conventional client: while the server has not sent back a weapon that has fired, the client's
      own player predicts no shot, whatever is pressed, buffered or confirmed. */
  lemma {:induction false} NoUnconfirmedFirstShot(weapon: Weapon, run: seq<ClientTick>, start: nat, n: nat)
    requires start + |run| < 0x1_0000_0000 && weapon.lastFireTick == 0 && n < |run|
    requires forall k :: 0 <= k <= n && run[k].restored.Some? ==> run[k].restored.value == 0
    ensures OwnWeapon(weapon, run[..n], start) == weapon
    ensures !Fires(Client, OwnPlayer(weapon, run[n]), start + n)
  {
    if n > 0 {
      NoUnconfirmedFirstShot(weapon, run, start, n - 1);
      assert run[..n][..n - 1] == run[..n - 1];
    }
  }
}
