/** Peers that simulate the same inputs compute the same weapons and shots, whatever is local to each of them. */
module SpaceshipsP2P {
  import opened Options
  import opened SpaceshipsFiring
  import Replays

  /** What a peer holds about one player at a tick. */
  datatype PeerInput = PeerInput(pressed: bool, buffer: InputBuffer, isLocal: bool)

  type Inputs = map<Id, PeerInput>

  type Weapons = map<Id, Weapon>

  /** A player without inputs presses nothing. */
  function InputOf(inputs: Inputs, id: Id): PeerInput {
    if id in inputs then inputs[id] else PeerInput(false, InputBuffer(map[], None), true)
  }

  /** Every P2P player is deterministic; no server confirms its weapon. */
  function P2PPlayer(weapon: Weapon, input: PeerInput): Player {
    Player(input.pressed, input.buffer, weapon, None, input.isLocal, false, true, false)
  }

  function Players(weapons: Weapons, inputs: Inputs): map<Id, Player> {
    map id | id in weapons :: P2PPlayer(weapons[id], InputOf(inputs, id))
  }

  /** The `n`-th tick; ticks saturate. */
  function TickAt(n: nat): Tick {
    if n < 0x1_0000_0000 then n else 0xffff_ffff
  }

  /** The weapons after one tick of `SharedPlayerFiring`. */
  function StepWeapons(weapons: Weapons, inputs: Inputs, tick: Tick): Weapons {
    map id | id in weapons :: AfterFiring(P2P, P2PPlayer(weapons[id], InputOf(inputs, id)), tick).weapon
  }

  /** The shots of one tick of `SharedPlayerFiring`. */
  ghost function StepShots(weapons: Weapons, inputs: Inputs, tick: Tick): seq<Shot> {
    ShotsBy(AscendingOf(Shooters(P2P, Players(weapons, inputs), tick)), tick)
  }

  /** The step is what the firing system computes, in whatever order it finds the players. */
  lemma StepIsFiring(weapons: Weapons, inputs: Inputs, shots: seq<Shot>, tick: Tick)
    requires ShotsInOrder(Shooters(P2P, Players(weapons, inputs), tick), shots, tick)
    ensures shots == StepShots(weapons, inputs, tick)
    ensures forall id :: id in weapons ==>
      AllAfterFiring(P2P, Players(weapons, inputs), tick)[id].weapon == StepWeapons(weapons, inputs, tick)[id]
  {
    ShotsInOrderAreUnique(Shooters(P2P, Players(weapons, inputs), tick), shots, StepShots(weapons, inputs, tick), tick);
  }

  /** Whether a player fires in a peer's run, from what the peer holds of it. */
  predicate PeerFires(weapon: Weapon, input: PeerInput, tick: Tick) {
    && input.pressed && FireIsSampled(input.buffer.samples, tick) && Received(input, tick)
    && CooledDown(weapon.lastFireTick, tick, weapon.cooldown)
  }

  /** One tick of a peer's run: exactly the players who hold Fire, sampled and received, with a weapon cooled down, give
      a shot each, and have fired at this tick; the others keep their weapon. */
  lemma StepExactly(weapons: Weapons, inputs: Inputs, tick: Tick)
    ensures forall id, t :: Shot(id, t) in StepShots(weapons, inputs, tick) <==>
      id in weapons && t == tick && PeerFires(weapons[id], InputOf(inputs, id), tick)
    ensures StepWeapons(weapons, inputs, tick).Keys == weapons.Keys
    ensures forall id :: id in weapons ==>
      StepWeapons(weapons, inputs, tick)[id]
      == if PeerFires(weapons[id], InputOf(inputs, id), tick) then Weapon(tick, weapons[id].cooldown) else weapons[id]
  {
    forall id | id in weapons
      ensures Fires(P2P, P2PPlayer(weapons[id], InputOf(inputs, id)), tick)
         <==> PeerFires(weapons[id], InputOf(inputs, id), tick)
    {
      P2PFiresExactly(P2PPlayer(weapons[id], InputOf(inputs, id)), tick);
    }
    var shooters := Shooters(P2P, Players(weapons, inputs), tick);
    var ids := AscendingOf(shooters);
    forall id, t
      ensures Shot(id, t) in StepShots(weapons, inputs, tick) <==> id in shooters && t == tick
    {
      if id in shooters && t == tick {
        var i :| 0 <= i < |ids| && ids[i] == id;
        assert StepShots(weapons, inputs, tick)[i] == Shot(id, t);
      }
    }
  }

  ghost function Step(weapons: Weapons, inputs: Inputs, n: nat): Weapons {
    StepWeapons(weapons, inputs, TickAt(n))
  }

  ghost function Shots(weapons: Weapons, inputs: Inputs, n: nat): seq<Shot> {
    StepShots(weapons, inputs, TickAt(n))
  }

  /** The weapons after simulating `run` from tick `start`. */
  ghost function WeaponsAfter(weapons: Weapons, run: seq<Inputs>, start: nat): Weapons {
    Replays.After(Step, weapons, run, start)
  }

  /** The shots of each tick of `run`. */
  ghost function ShotsOver(weapons: Weapons, run: seq<Inputs>, start: nat): seq<seq<Shot>> {
    Replays.Outputs(Step, Shots, weapons, run, start)
  }

  // ----- Agreement -----

  /** A remote player's inputs have been received up to the tick. */
  predicate Received(input: PeerInput, tick: Tick) {
    input.isLocal || (input.buffer.lastRemoteTick.Some? && input.buffer.lastRemoteTick.value >= tick)
  }

  /** The same inputs for a tick: the buttons, the sample of the tick, and whether there is one before it. */
  predicate SameInput(a: PeerInput, b: PeerInput, tick: Tick) {
    && a.pressed == b.pressed
    && (tick in a.buffer.samples <==> tick in b.buffer.samples)
    && (tick in a.buffer.samples && tick in b.buffer.samples ==> a.buffer.samples[tick] == b.buffer.samples[tick])
    && (Previous(tick) in a.buffer.samples <==> Previous(tick) in b.buffer.samples)
  }

  ghost predicate AgreeAt(a: Inputs, b: Inputs, ids: set<Id>, tick: Tick) {
    forall id :: id in ids ==>
      && SameInput(InputOf(a, id), InputOf(b, id), tick)
      && Received(InputOf(a, id), tick) && Received(InputOf(b, id), tick)
  }

  lemma SamePlayerFires(weapon: Weapon, a: PeerInput, b: PeerInput, tick: Tick)
    requires SameInput(a, b, tick) && Received(a, tick) && Received(b, tick)
    ensures Fires(P2P, P2PPlayer(weapon, a), tick) == Fires(P2P, P2PPlayer(weapon, b), tick)
    ensures AfterFiring(P2P, P2PPlayer(weapon, a), tick).weapon == AfterFiring(P2P, P2PPlayer(weapon, b), tick).weapon
  {
    P2PFiresExactly(P2PPlayer(weapon, a), tick);
    P2PFiresExactly(P2PPlayer(weapon, b), tick);
  }

  lemma StepWeaponsAgree(weapons: Weapons, a: Inputs, b: Inputs, tick: Tick)
    requires AgreeAt(a, b, weapons.Keys, tick)
    ensures StepWeapons(weapons, a, tick) == StepWeapons(weapons, b, tick)
  {
    forall id | id in weapons ensures StepWeapons(weapons, a, tick)[id] == StepWeapons(weapons, b, tick)[id] {
      SamePlayerFires(weapons[id], InputOf(a, id), InputOf(b, id), tick);
    }
  }

  lemma ShootersAgree(weapons: Weapons, a: Inputs, b: Inputs, tick: Tick)
    requires AgreeAt(a, b, weapons.Keys, tick)
    ensures Shooters(P2P, Players(weapons, a), tick) == Shooters(P2P, Players(weapons, b), tick)
  {
    forall id | id in weapons
      ensures id in Shooters(P2P, Players(weapons, a), tick) <==> id in Shooters(P2P, Players(weapons, b), tick)
    {
      SamePlayerFires(weapons[id], InputOf(a, id), InputOf(b, id), tick);
    }
  }

  lemma AgreementIsInterchangeable(ids: set<Id>, a: Inputs, b: Inputs, n: nat)
    requires AgreeAt(a, b, ids, TickAt(n))
    ensures Replays.Interchangeable(Step, Shots, (w: Weapons) => w.Keys == ids, a, b, n)
  {
    forall w: Weapons | w.Keys == ids
      ensures Step(w, a, n) == Step(w, b, n) && Shots(w, a, n) == Shots(w, b, n) && Step(w, a, n).Keys == ids
    {
      StepWeaponsAgree(w, a, b, TickAt(n));
      ShootersAgree(w, a, b, TickAt(n));
    }
  }

  /** Two peers that hold the same inputs, remote ones received, compute the same weapons and the same ordered
      lists of shots at every tick of any run, whoever is local to each of them. */
  lemma PeersAgree(weapons: Weapons, a: seq<Inputs>, b: seq<Inputs>, start: nat)
    requires |a| == |b|
    requires forall n :: 0 <= n < |a| ==> AgreeAt(a[n], b[n], weapons.Keys, TickAt(start + n))
    ensures WeaponsAfter(weapons, a, start) == WeaponsAfter(weapons, b, start)
    ensures ShotsOver(weapons, a, start) == ShotsOver(weapons, b, start)
  {
    var ids := weapons.Keys;
    var ok := (w: Weapons) => w.Keys == ids;
    forall n | 0 <= n < |a| ensures Replays.Interchangeable(Step, Shots, ok, a[n], b[n], start + n) {
      AgreementIsInterchangeable(ids, a[n], b[n], start + n);
    }
    Replays.SameRuns(Step, Shots, ok, weapons, a, b, start);
  }

  /** A peer simulated `past` and then `wrong` inputs, and learns better. It restores the weapons of the end of
      `past` and simulates `corrected`: with the shots kept from before, that equals the run of another peer that
      had the right inputs all along. */
  lemma ReplayEqualsRun(weapons: Weapons, past: seq<Inputs>, wrong: seq<Inputs>, corrected: seq<Inputs>,
                        past': seq<Inputs>, rest': seq<Inputs>, start: nat)
    requires |past| == |past'| && |corrected| == |rest'|
    requires forall n :: 0 <= n < |past| ==> AgreeAt(past[n], past'[n], weapons.Keys, TickAt(start + n))
    requires forall n :: 0 <= n < |corrected| ==>
      AgreeAt(corrected[n], rest'[n], weapons.Keys, TickAt(start + |past| + n))
    ensures var snapshot := WeaponsAfter(weapons, past, start);
            && WeaponsAfter(snapshot, corrected, start + |past|) == WeaponsAfter(weapons, past' + rest', start)
            && |ShotsOver(weapons, past + wrong, start)| == |past| + |wrong|
            && ShotsOver(weapons, past + wrong, start)[..|past|] + ShotsOver(snapshot, corrected, start + |past|)
               == ShotsOver(weapons, past' + rest', start)
  {
    var ids := weapons.Keys;
    var ok := (w: Weapons) => w.Keys == ids;
    forall n | 0 <= n < |past| ensures Replays.Interchangeable(Step, Shots, ok, past[n], past'[n], start + n) {
      AgreementIsInterchangeable(ids, past[n], past'[n], start + n);
    }
    forall n | 0 <= n < |corrected|
      ensures Replays.Interchangeable(Step, Shots, ok, corrected[n], rest'[n], start + |past| + n)
    {
      AgreementIsInterchangeable(ids, corrected[n], rest'[n], start + |past| + n);
    }
    Replays.ReplayEqualsRun(Step, Shots, ok, weapons, past, wrong, corrected, past', rest', start);
  }
}
