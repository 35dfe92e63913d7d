/** Whole runs of the spaceships server, with players who connect, disconnect and come back with a new ship. */
module SpaceshipsSessions {
  import opened Bits
  import opened SpaceshipsFiring
  import opened SpaceshipsServer
  import opened SpaceshipsHash

  /** A run: states[0] is the empty arena, each state follows the one before at the next tick. */
  ghost predicate IsRun(states: seq<State>, events: seq<Event>, start: nat, cooldown: nat, lifetime: int) {
    && |states| == |events| + 1 && start + |events| < 0x1_0000_0000
    && states[0] == State(map[], [], [])
    && forall n :: 0 <= n < |events| ==> TicksAt(states, events, start, cooldown, lifetime, n)
  }

  /** The tick of event `n`. */
  ghost predicate TicksAt(states: seq<State>, events: seq<Event>, start: nat, cooldown: nat, lifetime: int, n: nat)
    requires n < |events| < |states| && start + |events| < 0x1_0000_0000
  {
    Ticks(states[n], states[n + 1], events[n], start + 1 + n, cooldown, lifetime)
  }

  lemma RunTick(states: seq<State>, events: seq<Event>, start: nat, cooldown: nat, lifetime: int, n: nat)
    returns (tick: Tick)
    requires IsRun(states, events, start, cooldown, lifetime) && n < |events|
    ensures tick == start + 1 + n && Ticks(states[n], states[n + 1], events[n], tick, cooldown, lifetime)
  {
    assert TicksAt(states, events, start, cooldown, lifetime, n);
    tick := start + 1 + n;
  }

  // ----- Who plays when -----

  /** The players connected after the first `n` events. */
  function Roster(events: seq<Event>, n: nat): set<Id>
    requires n <= |events|
  {
    if n == 0 then {} else (Roster(events, n - 1) - events[n - 1].leaving) + events[n - 1].joining
  }

  /** The player takes part in the tick of event `n`. */
  predicate Plays(events: seq<Event>, n: nat, id: Id)
    requires n < |events|
  {
    id in Roster(events, n + 1)
  }

  /** The player gets a new ship before the tick of event `n`. */
  predicate Arrives(events: seq<Event>, n: nat, id: Id)
    requires n < |events|
  {
    id in events[n].joining && (id !in Roster(events, n) || id in events[n].leaving)
  }

  /** Whoever arrives has stayed away: more than `gap` ticks lie between a tick played and a later arrival. Ticks before
      the end of the first cooldown do not count, since no weapon fires at them, nor do arrivals at ticks too late for
      a new weapon to fire. */
  ghost predicate Rested(events: seq<Event>, start: nat, cooldown: nat, gap: nat) {
    forall m, n, id :: 0 <= m < n < |events| && Plays(events, m, id) && Arrives(events, n, id) ==>
      n - m > gap || start + 1 + m <= cooldown || start + 1 + n >= 0x8000_0000
  }

  lemma {:induction false} RosterHasWeapons(states: seq<State>, events: seq<Event>, start: nat, cooldown: nat,
                                            lifetime: int, n: nat)
    requires IsRun(states, events, start, cooldown, lifetime) && n <= |events|
    ensures states[n].weapons.Keys == Roster(events, n)
  {
    if n > 0 {
      RosterHasWeapons(states, events, start, cooldown, lifetime, n - 1);
      var tick := RunTick(states, events, start, cooldown, lifetime, n - 1);
      TickLogs(states[n - 1], states[n], events[n - 1], tick, cooldown, lifetime);
    }
  }

  /** Bullets are fired by players, at ticks they play. */
  ghost predicate FiredWhilePlaying(x: Shot, events: seq<Event>, start: nat, n: nat)
    requires n <= |events|
  {
    exists m :: 0 <= m < n && x.tick == start + 1 + m && Plays(events, m, x.owner)
  }

  lemma FiredEarlier(x: Shot, events: seq<Event>, start: nat, n: nat)
    requires n < |events| && FiredWhilePlaying(x, events, start, n)
    ensures FiredWhilePlaying(x, events, start, n + 1)
  {
    var m :| 0 <= m < n && x.tick == start + 1 + m && Plays(events, m, x.owner);
  }

  lemma {:induction false} LogIsFiredWhilePlaying(states: seq<State>, events: seq<Event>, start: nat, cooldown: nat,
                                                  lifetime: int, n: nat)
    requires IsRun(states, events, start, cooldown, lifetime) && n <= |events|
    ensures forall x :: x in states[n].log ==> FiredWhilePlaying(x, events, start, n)
  {
    if n > 0 {
      LogIsFiredWhilePlaying(states, events, start, cooldown, lifetime, n - 1);
      RosterHasWeapons(states, events, start, cooldown, lifetime, n);
      var tick := RunTick(states, events, start, cooldown, lifetime, n - 1);
      TickLogs(states[n - 1], states[n], events[n - 1], tick, cooldown, lifetime);
      forall x | x in states[n].log ensures FiredWhilePlaying(x, events, start, n) {
        if x in states[n - 1].log {
          FiredEarlier(x, events, start, n - 1);
        } else {
          assert Plays(events, n - 1, x.owner);
        }
      }
    }
  }

  // ----- The invariant over runs -----

  /** Where the traffic is rested, so are all those who really fired before they came back. */
  lemma RestedTrafficIsRested(states: seq<State>, events: seq<Event>, start: nat, cooldown: nat, lifetime: int,
                              gap: nat, n: nat, tick: Tick)
    requires IsRun(states, events, start, cooldown, lifetime) && n < |events| && tick == start + 1 + n
    requires forall x :: x in states[n].log ==> x.tick > cooldown
    requires Rested(events, start, cooldown, gap)
    ensures RestedJoins(states[n], events[n], tick, gap)
  {
    LogIsFiredWhilePlaying(states, events, start, cooldown, lifetime, n);
    RosterHasWeapons(states, events, start, cooldown, lifetime, n);
    forall x | x in states[n].log && Fresh(states[n].weapons, events[n], x.owner)
      ensures tick - x.tick > gap || tick >= 0x8000_0000
    {
      var m :| 0 <= m < n && x.tick == start + 1 + m && Plays(events, m, x.owner);
      assert Arrives(events, n, x.owner);
    }
  }

  lemma RunTickKeepsInv(states: seq<State>, events: seq<Event>, start: nat, cooldown: nat, lifetime: int, gap: nat,
                        n: nat, now: Tick)
    requires IsRun(states, events, start, cooldown, lifetime) && n < |events| && now == start + n
    requires 0 <= lifetime < 0x7fff_ffff && gap <= cooldown && Inv(states[n], now, cooldown, lifetime, gap)
    requires gap == 0 || Rested(events, start, cooldown, gap)
    ensures Inv(states[n + 1], now + 1, cooldown, lifetime, gap)
  {
    var tick := RunTick(states, events, start, cooldown, lifetime, n);
    if gap == 0 {
      AllJoinsAreRestedForZero(states[n], events[n], now, tick, cooldown, lifetime, gap);
    } else {
      RestedTrafficIsRested(states, events, start, cooldown, lifetime, gap, n, tick);
    }
    TickKeepsInv(states[n], states[n + 1], events[n], now, tick, cooldown, lifetime, gap);
  }

  lemma {:induction false} RunKeepsInv(states: seq<State>, events: seq<Event>, start: nat, cooldown: nat, lifetime: int,
                                       gap: nat, n: nat)
    requires IsRun(states, events, start, cooldown, lifetime) && n <= |events|
    requires 0 <= lifetime < 0x7fff_ffff && gap <= cooldown
    requires gap == 0 || Rested(events, start, cooldown, gap)
    ensures Inv(states[n], start + n, cooldown, lifetime, gap)
  {
    if n > 0 {
      RunKeepsInv(states, events, start, cooldown, lifetime, gap, n - 1);
      RunTickKeepsInv(states, events, start, cooldown, lifetime, gap, n - 1, start + n - 1);
    }
  }

  /** In every run of the server, whoever comes and goes, holds Fire or is hit: no two bullets, ever, share owner and
      tick; live bullets are bullets fired; and nobody has more than `lifetime + 1` of them. */
  lemma BulletsAreUnique(states: seq<State>, events: seq<Event>, start: nat, cooldown: nat, lifetime: nat, n: nat)
    requires IsRun(states, events, start, cooldown, lifetime) && n <= |events| && lifetime < 0x7fff_ffff
    ensures var s := states[n];
            && (forall i, j :: 0 <= i < j < |s.log| ==> s.log[i] != s.log[j])
            && (forall i, j :: 0 <= i < j < |s.live| ==> s.live[i] != s.live[j])
            && (forall x :: x in s.live ==> x in s.log && start + n - x.tick <= lifetime)
            && (forall owner :: |TicksOf(s.live, owner)| <= lifetime + 1)
  {
    var s := states[n];
    RunKeepsInv(states, events, start, cooldown, lifetime, 0, n);
    forall i, j | 0 <= i < j < |s.log| ensures s.log[i] != s.log[j] {
      SpacedIsDistinct(s.log, 0, i, j);
    }
    forall i, j | 0 <= i < j < |s.live| ensures s.live[i] != s.live[j] {
      SpacedIsDistinct(s.live, 0, i, j);
    }
    forall owner ensures |TicksOf(s.live, owner)| <= lifetime + 1 {
      FewLiveBullets(s, start + n, cooldown, lifetime, 0, owner);
    }
  }

  /** The identity of a bullet. */
  function ShotHash(x: Shot): Bits {
    BulletPrespawnHash(ToBits(x.owner, 64), ToBits(x.tick, 32))
  }

  /** Shots by owners of 32 bits share a hash only if they are the same shot. */
  lemma HashIdentifiesShot(x: Shot, y: Shot)
    requires x.owner < 0x1_0000_0000 && y.owner < 0x1_0000_0000 && ShotHash(x) == ShotHash(y)
    ensures x == y
  {
    HalfWord();
    SmallHasLowBitsOnly(x.owner, 64, 32);
    SmallHasLowBitsOnly(y.owner, 64, 32);
    HashIsInjective(ToBits(x.owner, 64), ToBits(x.tick, 32), ToBits(y.owner, 64), ToBits(y.tick, 32));
    WordBound();
    ToBitsIsInjective(x.owner, y.owner, 64);
    ToBitsIsInjective(x.tick, y.tick, 32);
  }

  /** What the prespawn hash is for: in every run with owners of 32 bits, however often they reconnect, all bullets ever
      fired have different hashes. */
  lemma HashesAreUnique(states: seq<State>, events: seq<Event>, start: nat, cooldown: nat, lifetime: nat, n: nat,
                        i: nat, j: nat)
    requires IsRun(states, events, start, cooldown, lifetime) && n <= |events| && lifetime < 0x7fff_ffff
    requires forall x :: x in states[n].log ==> x.owner < 0x1_0000_0000
    requires i < j < |states[n].log|
    ensures ShotHash(states[n].log[i]) != ShotHash(states[n].log[j])
  {
    BulletsAreUnique(states, events, start, cooldown, lifetime, n);
    if ShotHash(states[n].log[i]) == ShotHash(states[n].log[j]) {
      HashIdentifiesShot(states[n].log[i], states[n].log[j]);
    }
  }

  /** With the values of the demo, in every run in which players who come back have been away for longer than the
      cooldown: one player's shots are at least 13 ticks apart, and nobody ever has more than ten live bullets. */
  lemma RestedRunIsBounded(states: seq<State>, events: seq<Event>, start: nat, n: nat, owner: Id)
    requires IsRun(states, events, start, COOLDOWN, LIFETIME) && n <= |events|
    requires Rested(events, start, COOLDOWN, COOLDOWN)
    ensures var ticks := TicksOf(states[n].log, owner);
            && (forall t :: t in ticks <==> Shot(owner, t) in states[n].log)
            && (forall i, j :: 0 <= i < j < |ticks| ==> ticks[j] - ticks[i] >= (j - i) * (COOLDOWN + 1))
    ensures |TicksOf(states[n].live, owner)| <= 10
  {
    RunKeepsInv(states, events, start, COOLDOWN, LIFETIME, COOLDOWN, n);
    TicksOfSpaced(states[n].log, owner, COOLDOWN);
    TicksOfAreShots(states[n].log, owner);
    FewLiveBullets(states[n], start + n, COOLDOWN, LIFETIME, COOLDOWN, owner);
  }

  // ----- The condition is exact -----

  ghost predicate SameTrafficOver(events: seq<Event>, events': seq<Event>) {
    |events| == |events'| && forall n :: 0 <= n < |events| ==> SameTraffic(events[n], events'[n])
  }

  lemma {:induction false} TrafficDecidesRoster(events: seq<Event>, events': seq<Event>, n: nat)
    requires SameTrafficOver(events, events') && n <= |events|
    ensures Roster(events, n) == Roster(events', n)
  {
    if n > 0 {
      TrafficDecidesRoster(events, events', n - 1);
      assert SameTraffic(events[n - 1], events'[n - 1]);
    }
  }

  lemma TrafficDecidesRest(events: seq<Event>, events': seq<Event>, start: nat, cooldown: nat, gap: nat)
    requires SameTrafficOver(events, events') && Rested(events, start, cooldown, gap)
    ensures Rested(events', start, cooldown, gap)
  {
    forall m, n, id | 0 <= m < n < |events'| && Plays(events', m, id) && Arrives(events', n, id)
      ensures n - m > gap || start + 1 + m <= cooldown || start + 1 + n >= 0x8000_0000
    {
      TrafficDecidesRoster(events, events', m + 1);
      TrafficDecidesRoster(events, events', n);
      assert SameTraffic(events[n], events'[n]);
      assert Plays(events, m, id) && Arrives(events, n, id);
    }
  }

  /** The same comings and goings, but only `id` holds Fire, and only at the ticks of two events. */
  function TwoPresses(events: seq<Event>, id: Id, m: nat, n: nat): seq<Event> {
    seq(|events|, k requires 0 <= k < |events| =>
      Event(events[k].leaving, events[k].joining, if k == m || k == n then {id} else {}, {}))
  }

  lemma {:induction false} RunExists(events: seq<Event>, start: nat, cooldown: nat, lifetime: int, n: nat)
    returns (states: seq<State>)
    requires n <= |events| && start + |events| < 0x1_0000_0000
    ensures IsRun(states, events[..n], start, cooldown, lifetime)
  {
    if n == 0 {
      states := [State(map[], [], [])];
    } else {
      var before := RunExists(events, start, cooldown, lifetime, n - 1);
      var s := TickExists(before[n - 1], events[n - 1], start + n, cooldown, lifetime);
      states := before + [s];
      forall k | 0 <= k < n
        ensures TicksAt(states, events[..n], start, cooldown, lifetime, k)
      {
        if k < n - 1 {
          assert events[..n][k] == events[..n - 1][k];
          assert TicksAt(before, events[..n - 1], start, cooldown, lifetime, k);
        }
      }
    }
  }

  ghost predicate Quiet(s: State, cooldown: nat) {
    (forall x :: x !in s.log) && forall id :: id in s.weapons ==> s.weapons[id] == Weapon(0, cooldown)
  }

  /** Nobody has fired before the first press. */
  lemma {:induction false} QuietBeforePress(states: seq<State>, events: seq<Event>, start: nat, cooldown: nat,
                                            lifetime: int, n: nat)
    requires IsRun(states, events, start, cooldown, lifetime) && n <= |events|
    requires forall k :: 0 <= k < n ==> events[k].pressed == {}
    ensures Quiet(states[n], cooldown)
  {
    if n > 0 {
      QuietBeforePress(states, events, start, cooldown, lifetime, n - 1);
      var tick := RunTick(states, events, start, cooldown, lifetime, n - 1);
      QuietTick(states[n - 1], states[n], events[n - 1], tick, cooldown, lifetime);
    }
  }

  lemma QuietTick(s: State, s': State, e: Event, tick: Tick, cooldown: nat, lifetime: int)
    requires Ticks(s, s', e, tick, cooldown, lifetime) && Quiet(s, cooldown) && e.pressed == {}
    ensures Quiet(s', cooldown)
  {
    TickLogs(s, s', e, tick, cooldown, lifetime);
    assert ServerShooters(Connected(s.weapons, e, cooldown), e, tick) == {};
  }

  /** A weapon that never fired does so at the tick. */
  lemma FirstPressFires(s: State, s': State, e: Event, tick: Tick, cooldown: nat, lifetime: int, id: Id)
    requires Ticks(s, s', e, tick, cooldown, lifetime) && Quiet(s, cooldown) && id in e.pressed
    requires id in s'.weapons && cooldown < tick < 0x8000_0000
    ensures Shot(id, tick) in s'.log
  {
    TickLogs(s, s', e, tick, cooldown, lifetime);
    ServerFiresIff(Weapon(0, cooldown), true, tick);
  }

  lemma {:induction false} LogGrows(states: seq<State>, events: seq<Event>, start: nat, cooldown: nat, lifetime: int,
                                    m: nat, n: nat)
    requires IsRun(states, events, start, cooldown, lifetime) && m <= n <= |events|
    ensures forall x :: x in states[m].log ==> x in states[n].log
  {
    if m < n {
      LogGrows(states, events, start, cooldown, lifetime, m, n - 1);
      var tick := RunTick(states, events, start, cooldown, lifetime, n - 1);
      TickLogs(states[n - 1], states[n], events[n - 1], tick, cooldown, lifetime);
    }
  }

  /** A player who plays a tick, leaves and arrives again can fire at both ticks. */
  lemma ComebackFiresTwice(events: seq<Event>, start: nat, cooldown: nat, lifetime: int, m: nat, n: nat, id: Id)
    returns (states: seq<State>)
    requires m < n < |events| && start + |events| < 0x1_0000_0000
    requires Plays(events, m, id) && Arrives(events, n, id)
    requires start + 1 + m > cooldown && start + 1 + n < 0x8000_0000
    ensures IsRun(states, TwoPresses(events, id, m, n), start, cooldown, lifetime)
    ensures Shot(id, start + 1 + m) in states[|events|].log && Shot(id, start + 1 + n) in states[|events|].log
  {
    var run := TwoPresses(events, id, m, n);
    states := RunExists(run, start, cooldown, lifetime, |run|);
    assert run[..|run|] == run;
    FiresAt(states, events, run, start, cooldown, lifetime, m, n, id);
    ArrivalFires(states, events, run, start, cooldown, lifetime, m, n, id);
    LogGrows(states, run, start, cooldown, lifetime, m + 1, |run|);
    LogGrows(states, run, start, cooldown, lifetime, n + 1, |run|);
  }

  lemma FiresAt(states: seq<State>, events: seq<Event>, run: seq<Event>, start: nat, cooldown: nat, lifetime: int,
                m: nat, n: nat, id: Id)
    requires m < n < |events| && run == TwoPresses(events, id, m, n) && Plays(events, m, id)
    requires IsRun(states, run, start, cooldown, lifetime)
    requires cooldown < start + 1 + m < 0x8000_0000
    ensures Shot(id, start + 1 + m) in states[m + 1].log
  {
    QuietBeforePress(states, run, start, cooldown, lifetime, m);
    TrafficDecidesRoster(events, run, m + 1);
    RosterHasWeapons(states, run, start, cooldown, lifetime, m + 1);
    var tick := RunTick(states, run, start, cooldown, lifetime, m);
    FirstPressFires(states[m], states[m + 1], run[m], tick, cooldown, lifetime, id);
  }

  lemma ArrivalFires(states: seq<State>, events: seq<Event>, run: seq<Event>, start: nat, cooldown: nat, lifetime: int,
                     m: nat, n: nat, id: Id)
    requires m < n < |events| && run == TwoPresses(events, id, m, n) && Arrives(events, n, id)
    requires IsRun(states, run, start, cooldown, lifetime)
    requires cooldown < start + 1 + n < 0x8000_0000
    ensures Shot(id, start + 1 + n) in states[n + 1].log
  {
    TrafficDecidesRoster(events, run, n);
    RosterHasWeapons(states, run, start, cooldown, lifetime, n);
    var tick := RunTick(states, run, start, cooldown, lifetime, n);
    FreshFires(states[n], states[n + 1], run[n], tick, cooldown, lifetime, id);
  }

  /** Whatever is pressed and hit, the traffic keeps the shots of each player more than `gap` ticks apart. */
  ghost predicate AlwaysSpaced(events: seq<Event>, start: nat, cooldown: nat, lifetime: int, gap: nat) {
    forall events': seq<Event>, states: seq<State> ::
      SameTrafficOver(events, events') && IsRun(states, events', start, cooldown, lifetime) ==>
      SpacedByOwner(states[|events'|].log, gap)
  }

  /** The spacing of shots survives reconnections exactly when whoever comes back has stayed away for longer than the
      gap: for any comings and goings over a run, every press pattern is spaced if and only if they are rested. */
  lemma AlwaysSpacedIffRested(events: seq<Event>, start: nat, cooldown: nat, lifetime: int, gap: nat)
    requires start + |events| < 0x1_0000_0000 && 0 <= lifetime < 0x7fff_ffff && gap <= cooldown
    ensures AlwaysSpaced(events, start, cooldown, lifetime, gap) <==> Rested(events, start, cooldown, gap)
  {
    if Rested(events, start, cooldown, gap) {
      forall events': seq<Event>, states: seq<State> |
        SameTrafficOver(events, events') && IsRun(states, events', start, cooldown, lifetime)
        ensures SpacedByOwner(states[|events'|].log, gap)
      {
        TrafficDecidesRest(events, events', start, cooldown, gap);
        RunKeepsInv(states, events', start, cooldown, lifetime, gap, |events'|);
      }
    } else {
      var m, n, id :| 0 <= m < n < |events| && Plays(events, m, id) && Arrives(events, n, id)
        && n - m <= gap && start + 1 + m > cooldown && start + 1 + n < 0x8000_0000;
      HastyComebackBreaksSpacing(events, start, cooldown, lifetime, gap, m, n, id);
    }
  }

  lemma HastyComebackBreaksSpacing(events: seq<Event>, start: nat, cooldown: nat, lifetime: int, gap: nat,
                                   m: nat, n: nat, id: Id)
    requires m < n < |events| && start + |events| < 0x1_0000_0000
    requires Plays(events, m, id) && Arrives(events, n, id) && n - m <= gap
    requires start + 1 + m > cooldown && start + 1 + n < 0x8000_0000
    ensures !AlwaysSpaced(events, start, cooldown, lifetime, gap)
  {
    var states := ComebackFiresTwice(events, start, cooldown, lifetime, m, n, id);
    var run := TwoPresses(events, id, m, n);
    assert SameTrafficOver(events, run);
    if SpacedByOwner(states[|run|].log, gap) {
      SpacedMembers(states[|run|].log, gap, Shot(id, start + 1 + m), Shot(id, start + 1 + n));
    }
  }

  // ----- Examples -----

  /** Player 7 connects before tick 100, drops out before tick 101 and is back before tick 105. */
  function QuickReconnect(): seq<Event> {
    var idle := Event({}, {}, {}, {});
    [Event({}, {7}, {}, {}), Event({7}, {}, {}, {}), idle, idle, idle, Event({}, {7}, {}, {})]
  }

  /** Spacing fails: with the demo's cooldown of 12 the server lets player 7 fire at ticks 100 and 105. */
  lemma ReconnectResetsCooldown() returns (states: seq<State>)
    ensures IsRun(states, TwoPresses(QuickReconnect(), 7, 0, 5), 99, COOLDOWN, LIFETIME)
    ensures Shot(7, 100) in states[6].log && Shot(7, 105) in states[6].log
  {
    var events := QuickReconnect();
    assert Roster(events, 1) == {7} && Roster(events, 2) == {};
    assert Roster(events, 3) == Roster(events, 4) == Roster(events, 5) == {};
    states := ComebackFiresTwice(events, 99, COOLDOWN, LIFETIME, 0, 5, 7);
  }

  /** Player 7 reconnects before every tick, always holding Fire. */
  function Reconnecting(n: nat): seq<Event> {
    seq(n, _ => Event({7}, {7}, {7}, {}))
  }

  function Volley(start: nat, n: nat): seq<Shot>
    requires start + n < 0x1_0000_0000
  {
    seq(n, i requires 0 <= i < n => Shot(7, start + 1 + i))
  }

  lemma {:induction false} KeepAllYoung(shots: seq<Shot>, tick: Tick, lifetime: int)
    requires forall x :: x in shots ==> TickDiff(tick, x.tick) <= lifetime
    ensures Keep(shots, tick, lifetime, {}) == shots
  {
    if shots != [] {
      assert shots == [shots[0]] + shots[1..];
      KeepAllYoung(shots[1..], tick, lifetime);
    }
  }

  /** Only player 7 is there, and its new weapon fires. */
  lemma ReconnectTick(s: State, s': State, tick: Tick, cooldown: nat, lifetime: int)
    requires Ticks(s, s', Event({7}, {7}, {7}, {}), tick, cooldown, lifetime) && s.weapons.Keys <= {7}
    requires cooldown < tick < 0x8000_0000
    requires forall x :: x in s.live + [Shot(7, tick)] ==> TickDiff(tick, x.tick) <= lifetime
    ensures s'.weapons.Keys <= {7} && s'.live == s.live + [Shot(7, tick)]
  {
    var e := Event({7}, {7}, {7}, {});
    var shooters := ServerShooters(Connected(s.weapons, e, cooldown), e, tick);
    ServerFiresIff(Weapon(0, cooldown), true, tick);
    assert shooters == {7};
    var shots: seq<Shot> :| ShotsInOrder(shooters, shots, tick)
      && s'.log == s.log + shots && s'.live == Keep(s.live + shots, tick, lifetime, e.hits);
    OneShot(shots, tick);
    KeepAllYoung(s.live + shots, tick, lifetime);
  }

  lemma OneShot(shots: seq<Shot>, tick: Tick)
    requires ShotsInOrder({7}, shots, tick)
    ensures shots == [Shot(7, tick)]
  {
    var ids := [7];
    assert ShotsBy(ids, tick) == [Shot(7, tick)] && Ascending(ids);
    assert ShotsInOrder({7}, ShotsBy(ids, tick), tick);
    ShotsInOrderAreUnique({7}, shots, ShotsBy(ids, tick), tick);
  }

  lemma VolleyGrows(start: nat, k: nat, tick: Tick, lifetime: nat)
    requires 0 < k <= lifetime + 1 && tick == start + k && start + k < 0x8000_0000
    ensures Volley(start, k) == Volley(start, k - 1) + [Shot(7, tick)]
    ensures forall x :: x in Volley(start, k) ==> TickDiff(tick, x.tick) <= lifetime
  {
    assert Volley(start, k) == Volley(start, k - 1) + [Shot(7, tick)];
  }

  lemma {:induction false} ReconnectingFiresVolley(states: seq<State>, n: nat, start: nat, cooldown: nat, lifetime: nat,
                                                   k: nat)
    requires IsRun(states, Reconnecting(n), start, cooldown, lifetime) && k <= n <= lifetime + 1
    requires cooldown <= start && start + n < 0x8000_0000
    ensures states[k].weapons.Keys <= {7} && states[k].live == Volley(start, k)
  {
    if k > 0 {
      ReconnectingFiresVolley(states, n, start, cooldown, lifetime, k - 1);
      var tick := RunTick(states, Reconnecting(n), start, cooldown, lifetime, k - 1);
      VolleyGrows(start, k, tick, lifetime);
      ReconnectTick(states[k - 1], states[k], tick, cooldown, lifetime);
    }
  }

  lemma {:induction false} TicksOfVolley(start: nat, n: nat)
    requires start + n < 0x1_0000_0000
    ensures |TicksOf(Volley(start, n), 7)| == n
    decreases n
  {
    if n > 0 {
      TicksOfVolley(start + 1, n - 1);
      assert Volley(start, n)[1..] == Volley(start + 1, n - 1);
    }
  }

  /** Without rest, the bound of `BulletsAreUnique` is reached: reconnecting before every tick, a player can have any
      number of live bullets up to `lifetime + 1`, 129 with the demo's values. */
  lemma EveryCountIsReached(n: nat, start: nat, cooldown: nat, lifetime: nat) returns (states: seq<State>)
    requires n <= lifetime + 1 && cooldown <= start && start + n < 0x8000_0000
    ensures IsRun(states, Reconnecting(n), start, cooldown, lifetime)
    ensures |TicksOf(states[n].live, 7)| == n
  {
    states := RunExists(Reconnecting(n), start, cooldown, lifetime, n);
    assert Reconnecting(n)[..n] == Reconnecting(n);
    ReconnectingFiresVolley(states, n, start, cooldown, lifetime, n);
    TicksOfVolley(start, n);
  }
}
