/** Setting up a player's input actions while the pieces of the player and of its actions arrive in any order. */
module ProjectileActions {
  import opened Options

  type Entity = nat

  datatype Kind = MovePlayer | MoveCursor | Shoot

  datatype Binding = WasdKeys | SpaceKey | OtherBinding

  datatype ActionValue =
    | Bool(b: bool)
    | Axis1D(x1: real)
    | Axis2D(x2: real, y2: real)
    | Axis3D(x3: real, y3: real, z3: real)

  function ToAxis2D(v: ActionValue): ActionValue {
    match v
    case Bool(b) => Axis2D(if b then 1.0 else 0.0, 0.0)
    case Axis1D(x) => Axis2D(x, 0.0)
    case Axis2D(_, _) => v
    case Axis3D(x, y, _) => Axis2D(x, y)
  }

  datatype Mock = Mock(enabled: bool, value: ActionValue)

  /** An action entity: what has been replicated of it, then what the client has set up locally. */
  datatype Action = Action(
    owner: Option<Entity>,
    kind: Option<Kind>,
    hasMarker: bool,
    externallyMocked: bool,
    bindings: Option<Binding>,
    mock: Option<Mock>)

  /** `actions` is the relationship kept up to date on the player's side. */
  datatype Player = Player(hasPlayerMarker: bool, controlled: bool, actions: seq<Entity>)

  // ----- Setting up one action -----

  /** The binding of a movement or shoot action, or the enabled mock of a cursor action. */
  function WithSource(a: Action): Action
    requires a.kind.Some?
  {
    match a.kind.value
    case MovePlayer => if a.bindings.None? then a.(bindings := Some(WasdKeys)) else a
    case MoveCursor =>
      if a.mock.Some? && a.mock.value.enabled then a
      else a.(mock := Some(Mock(true, if a.mock.Some? then ToAxis2D(a.mock.value.value) else Axis2D(0.0, 0.0))))
    case Shoot => if a.bindings.None? then a.(bindings := Some(SpaceKey)) else a
  }

  /** `configure_player_action_entity`: nothing to do before the typed action has arrived. */
  function Configure(a: Action, active: bool): Action {
    if a.kind.None? then a
    else if active then WithSource(a.(externallyMocked := false, hasMarker := true))
    else a.(hasMarker := false, externallyMocked := true)
  }

  // ----- The client's world -----

  predicate IsControlled(players: map<Entity, Player>, p: Entity) {
    p in players && players[p].hasPlayerMarker && players[p].controlled
  }

  function ConfigureAll(actions: map<Entity, Action>, list: seq<Entity>): map<Entity, Action> {
    if list == [] then actions
    else
      var n := |list| - 1;
      var before := ConfigureAll(actions, list[..n]);
      if list[n] in before then before[list[n] := Configure(before[list[n]], true)] else before
  }

  class ClientWorld {
    var actions: map<Entity, Action>
    var players: map<Entity, Player>

    constructor (actions: map<Entity, Action>, players: map<Entity, Player>)
      ensures this.actions == actions && this.players == players
    {
      this.actions, this.players := actions, players;
    }

    /** Observer: a relationship or a typed action was inserted on `a`. */
    method ConfigurePlayerActionOnInsert(a: Entity)
      requires a in actions
      modifies this`actions
      ensures actions == old(actions)[a := OnInsert(old(actions)[a], players)]
    {
      var action := actions[a];
      if action.owner.None? {
        assert actions == actions[a := action];
        return;
      }
      actions := actions[a := Configure(action, IsControlled(players, action.owner.value))];
    }

    /** Observer: `PlayerMarker`, `Controlled` or the first action was added to `p`. */
    method ConfigureControlledPlayerActions(p: Entity)
      requires p in players
      modifies this`actions
      ensures actions == OnAdd(old(actions), players, p)
    {
      if !IsControlled(players, p) || players[p].actions == [] {
        return;
      }
      var list := players[p].actions;
      for n := 0 to |list|
        invariant actions == ConfigureAll(old(actions), list[..n])
      {
        assert list[..n + 1][..n] == list[..n];
        if list[n] in actions {
          actions := actions[list[n] := Configure(actions[list[n]], true)];
        }
      }
      assert list[..|list|] == list;
    }

    /** Replication inserts `ActionOf(p)` on `a`, in the place of any other: the relationship is kept up to date on both
        sides, then the observers run. */
    method ActionOfArrives(a: Entity, p: Entity)
      requires a in actions && p in players
      modifies this
      ensures State(actions, players) == Related(old(State(actions, players)), a, p)
    {
      var before := actions[a].owner;
      actions := actions[a := actions[a].(owner := Some(p))];
      var firstAction := players[p].actions == [];
      if before.Some? && before.value in players {
        var list := players[before.value].actions;
        players := players[before.value := players[before.value].(actions := Without(list, a))];
      }
      players := players[p := players[p].(actions := players[p].actions + [a])];
      ConfigurePlayerActionOnInsert(a);
      assert actions == old(actions)[a := OnInsert(old(actions)[a].(owner := Some(p)), players)];
      if firstAction {
        ConfigureControlledPlayerActions(p);
      }
    }

    method KindArrives(a: Entity, kind: Kind)
      requires a in actions
      modifies this
      ensures State(actions, players) == Typed(old(State(actions, players)), a, kind)
    {
      actions := actions[a := actions[a].(kind := Some(kind))];
      ConfigurePlayerActionOnInsert(a);
    }

    /** Only the first insertion adds the component. */
    method PlayerMarkerArrives(p: Entity)
      requires p in players
      modifies this
      ensures State(actions, players) == Marked(old(State(actions, players)), p)
    {
      if players[p].hasPlayerMarker {
        return;
      }
      players := players[p := players[p].(hasPlayerMarker := true)];
      ConfigureControlledPlayerActions(p);
    }

    method ControlledArrives(p: Entity)
      requires p in players
      modifies this
      ensures State(actions, players) == Given(old(State(actions, players)), p)
    {
      if players[p].controlled {
        return;
      }
      players := players[p := players[p].(controlled := true)];
      ConfigureControlledPlayerActions(p);
    }
  }

  // ----- The steps as functions -----

  datatype State = State(actions: map<Entity, Action>, players: map<Entity, Player>)

  function OnInsert(a: Action, players: map<Entity, Player>): Action {
    if a.owner.None? then a else Configure(a, IsControlled(players, a.owner.value))
  }

  function OnAdd(actions: map<Entity, Action>, players: map<Entity, Player>, p: Entity): map<Entity, Action> {
    if IsControlled(players, p) then ConfigureAll(actions, players[p].actions) else actions
  }

  function Without(list: seq<Entity>, a: Entity): seq<Entity> {
    if list == [] then []
    else (if list[0] == a then [] else [list[0]]) + Without(list[1..], a)
  }

  /** The action leaves the list of its former player and joins that of its new one. */
  function Handed(players: map<Entity, Player>, from: Option<Entity>, p: Entity, a: Entity): map<Entity, Player>
    requires p in players
  {
    var left :=
      if from.Some? && from.value in players
      then players[from.value := players[from.value].(actions := Without(players[from.value].actions, a))]
      else players;
    left[p := left[p].(actions := left[p].actions + [a])]
  }

  function Related(s: State, a: Entity, p: Entity): State
    requires a in s.actions && p in s.players
  {
    var players := Handed(s.players, s.actions[a].owner, p, a);
    var actions := s.actions[a := OnInsert(s.actions[a].(owner := Some(p)), players)];
    State(if s.players[p].actions == [] then OnAdd(actions, players, p) else actions, players)
  }

  function Typed(s: State, a: Entity, kind: Kind): State
    requires a in s.actions
  {
    State(s.actions[a := OnInsert(s.actions[a].(kind := Some(kind)), s.players)], s.players)
  }

  function Marked(s: State, p: Entity): State
    requires p in s.players
  {
    if s.players[p].hasPlayerMarker then s
    else
      var players := s.players[p := s.players[p].(hasPlayerMarker := true)];
      State(OnAdd(s.actions, players, p), players)
  }

  function Given(s: State, p: Entity): State
    requires p in s.players
  {
    if s.players[p].controlled then s
    else
      var players := s.players[p := s.players[p].(controlled := true)];
      State(OnAdd(s.actions, players, p), players)
  }

  // ----- Runs -----

  /** The entities: of what kind each action is, their local state before anything arrives, and the players. */
  datatype Scene = Scene(kind: map<Entity, Kind>, initial: map<Entity, Action>, players: set<Entity>)

  predicate WellFormed(scene: Scene) {
    && scene.kind.Keys == scene.initial.Keys
    && forall a :: a in scene.initial ==>
         var i := scene.initial[a];
         i.owner.None? && i.kind.None? && !i.hasMarker && !i.externallyMocked
  }

  /** `OwnerOf(a, p)` makes `a` an action of `p`, whosever it was before. */
  datatype Arrival = OwnerOf(a: Entity, p: Entity) | KindOf(a: Entity) | MarkerOf(p: Entity) | ControlledOf(p: Entity)

  predicate Possible(scene: Scene, x: Arrival) {
    match x
    case OwnerOf(a, p) => a in scene.initial && p in scene.players
    case KindOf(a) => a in scene.initial
    case MarkerOf(p) => p in scene.players
    case ControlledOf(p) => p in scene.players
  }

  function Start(scene: Scene): State {
    State(scene.initial, map p | p in scene.players :: Player(false, false, []))
  }

  /** One arrival; anything the scene does not know is ignored. */
  function Step(scene: Scene, s: State, x: Arrival): State {
    match x
    case OwnerOf(a, p) => if a in s.actions && p in s.players then Related(s, a, p) else s
    case KindOf(a) => if a in s.actions && a in scene.kind then Typed(s, a, scene.kind[a]) else s
    case MarkerOf(p) => if p in s.players then Marked(s, p) else s
    case ControlledOf(p) => if p in s.players then Given(s, p) else s
  }

  function Run(scene: Scene, arrivals: seq<Arrival>): State {
    if arrivals == [] then Start(scene)
    else Step(scene, Run(scene, arrivals[..|arrivals| - 1]), arrivals[|arrivals| - 1])
  }

  // ----- What the arrivals say -----

  /** The player the action was given to last. */
  function OwnerNow(arrivals: seq<Arrival>, a: Entity): Option<Entity> {
    if arrivals == [] then None
    else
      var n := |arrivals| - 1;
      if arrivals[n].OwnerOf? && arrivals[n].a == a then Some(arrivals[n].p) else OwnerNow(arrivals[..n], a)
  }

  predicate ControlledNow(arrivals: seq<Arrival>, p: Entity) {
    MarkerOf(p) in arrivals && ControlledOf(p) in arrivals
  }

  /** The action is known, and its player is controlled. */
  predicate ActiveNow(arrivals: seq<Arrival>, a: Entity) {
    && KindOf(a) in arrivals && OwnerNow(arrivals, a).Some?
    && ControlledNow(arrivals, OwnerNow(arrivals, a).value)
  }

  /** It is, or was at some moment. */
  predicate EverActive(arrivals: seq<Arrival>, a: Entity) {
    ActiveNow(arrivals, a) || (arrivals != [] && EverActive(arrivals[..|arrivals| - 1], a))
  }

  /** All that matters about an action. */
  datatype Status = Status(owner: Option<Entity>, typed: bool, active: bool, ever: bool)

  function StatusOf(arrivals: seq<Arrival>, a: Entity): Status {
    Status(OwnerNow(arrivals, a), KindOf(a) in arrivals, ActiveNow(arrivals, a), EverActive(arrivals, a))
  }

  lemma Extend(arrivals: seq<Arrival>, x: Arrival, a: Entity)
    ensures OwnerNow(arrivals + [x], a) == if x.OwnerOf? && x.a == a then Some(x.p) else OwnerNow(arrivals, a)
    ensures EverActive(arrivals + [x], a) <==> ActiveNow(arrivals + [x], a) || EverActive(arrivals, a)
    ensures forall y :: y in arrivals + [x] <==> y in arrivals || y == x
  {
    assert (arrivals + [x])[..|arrivals|] == arrivals;
  }

  lemma OwnersAfter(arrivals: seq<Arrival>, x: Arrival)
    ensures forall b :: OwnerNow(arrivals + [x], b)
                     == if x.OwnerOf? && x.a == b then Some(x.p) else OwnerNow(arrivals, b)
  {
    forall b
      ensures OwnerNow(arrivals + [x], b) == if x.OwnerOf? && x.a == b then Some(x.p) else OwnerNow(arrivals, b)
    {
      Extend(arrivals, x, b);
    }
  }

  /** Only a known action with an owner can have been active; both stay. */
  lemma {:induction false} EverActiveIsKnown(arrivals: seq<Arrival>, a: Entity)
    requires EverActive(arrivals, a)
    ensures KindOf(a) in arrivals && OwnerNow(arrivals, a).Some?
  {
    if !ActiveNow(arrivals, a) {
      var n := |arrivals| - 1;
      EverActiveIsKnown(arrivals[..n], a);
      assert arrivals == arrivals[..n] + [arrivals[n]];
    }
  }

  // ----- Settled actions -----

  /** The state of an action of that status: its source, once it was active, stays; marker and mock follow its
      player. */
  function Settled(scene: Scene, a: Entity, st: Status): Action
    requires WellFormed(scene) && a in scene.initial
  {
    var known := scene.initial[a].(owner := st.owner, kind := if st.typed then Some(scene.kind[a]) else None);
    if st.owner.None? || !st.typed then known
    else (if st.ever then WithSource(known) else known).(hasMarker := st.active, externallyMocked := !st.active)
  }

  function SettledNow(scene: Scene, arrivals: seq<Arrival>, a: Entity): Action
    requires WellFormed(scene) && a in scene.initial
  {
    Settled(scene, a, StatusOf(arrivals, a))
  }

  ghost predicate AllSettled(scene: Scene, arrivals: seq<Arrival>, actions: map<Entity, Action>)
    requires WellFormed(scene)
  {
    && actions.Keys == scene.initial.Keys
    && forall a :: a in scene.initial ==> actions[a] == SettledNow(scene, arrivals, a)
  }

  ghost predicate Reflected(scene: Scene, arrivals: seq<Arrival>, player: Player, p: Entity) {
    && (player.hasPlayerMarker <==> MarkerOf(p) in arrivals)
    && (player.controlled <==> ControlledOf(p) in arrivals)
    && forall a :: a in player.actions <==> a in scene.initial && OwnerNow(arrivals, a) == Some(p)
  }

  ghost predicate Reflects(scene: Scene, arrivals: seq<Arrival>, players: map<Entity, Player>) {
    players.Keys == scene.players && forall p :: p in scene.players ==> Reflected(scene, arrivals, players[p], p)
  }

  /** Configuring a settled action for another owner or a kind just arrived leaves it settled. */
  lemma ConfigureSettles(scene: Scene, a: Entity, st: Status, owner: Entity, active: bool)
    requires WellFormed(scene) && a in scene.initial
    requires st.ever ==> st.typed && st.owner.Some?
    ensures Configure(Settled(scene, a, st).(owner := Some(owner), kind := Some(scene.kind[a])), active)
         == Settled(scene, a, Status(Some(owner), true, active, st.ever || active))
  {
  }

  /** Without its kind, an action only remembers its owner; without an owner, its kind. */
  lemma UnknownStays(scene: Scene, a: Entity, st: Status, owner: Entity)
    requires WellFormed(scene) && a in scene.initial && !st.ever
    ensures !st.typed ==>
      Settled(scene, a, st).(owner := Some(owner)) == Settled(scene, a, Status(Some(owner), false, false, false))
    ensures st.owner.None? ==>
      Settled(scene, a, st).(kind := Some(scene.kind[a])) == Settled(scene, a, Status(None, true, false, false))
  {
  }

  /** Configuring again, never from active to inactive, equals configuring once. */
  lemma ConfigureAgain(a: Action, before: bool, after: bool)
    requires before ==> after
    ensures Configure(Configure(a, before), after) == Configure(a, after)
  {
  }

  lemma {:induction false} ConfigureAllEach(actions: map<Entity, Action>, list: seq<Entity>)
    requires forall a :: a in list ==> a in actions
    ensures ConfigureAll(actions, list).Keys == actions.Keys
    ensures forall a :: a in actions ==>
      ConfigureAll(actions, list)[a] == if a in list then Configure(actions[a], true) else actions[a]
  {
    if list != [] {
      var n := |list| - 1;
      assert list == list[..n] + [list[n]];
      ConfigureAllEach(actions, list[..n]);
      ConfigureAgain(actions[list[n]], true, true);
    }
  }

  // ----- An action changes hands or gets its kind -----

  lemma OthersKeepStatus(arrivals: seq<Arrival>, x: Arrival, b: Entity)
    requires (x.OwnerOf? || x.KindOf?) && x.a != b
    ensures StatusOf(arrivals + [x], b) == StatusOf(arrivals, b)
  {
    Extend(arrivals, x, b);
  }

  lemma OwnStatus(arrivals: seq<Arrival>, x: Arrival)
    requires x.OwnerOf? || x.KindOf?
    ensures var st, st' := StatusOf(arrivals, x.a), StatusOf(arrivals + [x], x.a);
            && st'.owner == (if x.OwnerOf? then Some(x.p) else st.owner)
            && st'.typed == (x.KindOf? || st.typed)
            && st'.active == (st'.typed && st'.owner.Some? && ControlledNow(arrivals, st'.owner.value))
            && st'.ever == (st.ever || st'.active)
            && (st.ever ==> st.typed && st.owner.Some?)
  {
    Extend(arrivals, x, x.a);
    if EverActive(arrivals, x.a) {
      EverActiveIsKnown(arrivals, x.a);
    }
  }

  /** The observer on the action's side settles it. */
  lemma OnInsertSettles(scene: Scene, arrivals: seq<Arrival>, x: Arrival, players: map<Entity, Player>)
    requires WellFormed(scene) && (x.OwnerOf? || x.KindOf?) && x.a in scene.initial
    requires forall p :: IsControlled(players, p) <==> ControlledNow(arrivals, p)
    ensures var now := SettledNow(scene, arrivals, x.a);
            var next := if x.OwnerOf? then now.(owner := Some(x.p)) else now.(kind := Some(scene.kind[x.a]));
            OnInsert(next, players) == SettledNow(scene, arrivals + [x], x.a)
  {
    OwnStatus(arrivals, x);
    var st, st' := StatusOf(arrivals, x.a), StatusOf(arrivals + [x], x.a);
    if st'.typed && st'.owner.Some? {
      ConfigureSettles(scene, x.a, st, st'.owner.value, st'.active);
    } else {
      UnknownStays(scene, x.a, st, if x.OwnerOf? then x.p else 0);
    }
  }

  /** The players of a world that reflects the arrivals are controlled exactly as those say. */
  lemma ControlIsReflected(scene: Scene, arrivals: seq<Arrival>, players: map<Entity, Player>)
    requires Reflects(scene, arrivals, players) && forall x :: x in arrivals ==> Possible(scene, x)
    ensures forall p :: IsControlled(players, p) <==> ControlledNow(arrivals, p)
  {
    forall p ensures IsControlled(players, p) <==> ControlledNow(arrivals, p) {
      if p in scene.players {
        assert Reflected(scene, arrivals, players[p], p);
      } else {
        assert MarkerOf(p) in arrivals ==> Possible(scene, MarkerOf(p));
      }
    }
  }

  lemma InsertSettles(scene: Scene, arrivals: seq<Arrival>, x: Arrival, s: State, players: map<Entity, Player>)
    requires WellFormed(scene) && (x.OwnerOf? || x.KindOf?) && x.a in scene.initial
    requires AllSettled(scene, arrivals, s.actions)
    requires forall p :: IsControlled(players, p) <==> ControlledNow(arrivals, p)
    ensures var now := s.actions[x.a];
            var next := if x.OwnerOf? then now.(owner := Some(x.p)) else now.(kind := Some(scene.kind[x.a]));
            AllSettled(scene, arrivals + [x], s.actions[x.a := OnInsert(next, players)])
  {
    OnInsertSettles(scene, arrivals, x, players);
    OthersStaySettled(scene, arrivals, x);
  }

  lemma OthersStaySettled(scene: Scene, arrivals: seq<Arrival>, x: Arrival)
    requires WellFormed(scene) && (x.OwnerOf? || x.KindOf?)
    ensures forall b :: b in scene.initial && b != x.a ==>
                        SettledNow(scene, arrivals + [x], b) == SettledNow(scene, arrivals, b)
  {
    forall b | b in scene.initial && b != x.a
      ensures SettledNow(scene, arrivals + [x], b) == SettledNow(scene, arrivals, b)
    {
      OthersKeepStatus(arrivals, x, b);
    }
  }

  lemma KindReflected(scene: Scene, arrivals: seq<Arrival>, players: map<Entity, Player>, a: Entity)
    requires Reflects(scene, arrivals, players)
    ensures Reflects(scene, arrivals + [KindOf(a)], players)
  {
    OwnersAfter(arrivals, KindOf(a));
    forall p | p in scene.players ensures Reflected(scene, arrivals + [KindOf(a)], players[p], p) {
      assert Reflected(scene, arrivals, players[p], p);
    }
  }

  lemma KindStep(scene: Scene, arrivals: seq<Arrival>, s: State, a: Entity)
    requires WellFormed(scene) && a in scene.initial && forall x :: x in arrivals ==> Possible(scene, x)
    requires Reflects(scene, arrivals, s.players) && AllSettled(scene, arrivals, s.actions)
    ensures Reflects(scene, arrivals + [KindOf(a)], Typed(s, a, scene.kind[a]).players)
    ensures AllSettled(scene, arrivals + [KindOf(a)], Typed(s, a, scene.kind[a]).actions)
  {
    ControlIsReflected(scene, arrivals, s.players);
    InsertSettles(scene, arrivals, KindOf(a), s, s.players);
    KindReflected(scene, arrivals, s.players, a);
  }

  lemma {:induction false} WithoutMembers(list: seq<Entity>, a: Entity)
    ensures forall b :: b in Without(list, a) <==> b in list && b != a
  {
    if list != [] {
      WithoutMembers(list[1..], a);
      assert list == [list[0]] + list[1..];
    }
  }

  /** Who has which action after one has changed hands. */
  lemma HandedMembers(players: map<Entity, Player>, from: Option<Entity>, p: Entity, a: Entity, q: Entity)
    requires p in players && q in players && (from.Some? ==> from.value in players)
    ensures var after := Handed(players, from, p, a);
            && after.Keys == players.Keys
            && after[q].hasPlayerMarker == players[q].hasPlayerMarker && after[q].controlled == players[q].controlled
            && forall b :: b in after[q].actions <==>
                 if b == a then q == p || (from != Some(q) && b in players[q].actions) else b in players[q].actions
  {
    if from.Some? {
      WithoutMembers(players[from.value].actions, a);
    }
  }

  lemma OwnerReflected(scene: Scene, arrivals: seq<Arrival>, players: map<Entity, Player>, a: Entity, p: Entity)
    requires a in scene.initial && p in scene.players && Reflects(scene, arrivals, players)
    requires OwnerNow(arrivals, a).Some? ==> OwnerNow(arrivals, a).value in scene.players
    ensures Reflects(scene, arrivals + [OwnerOf(a, p)], Handed(players, OwnerNow(arrivals, a), p, a))
  {
    var from, after := OwnerNow(arrivals, a), Handed(players, OwnerNow(arrivals, a), p, a);
    HandedMembers(players, from, p, a, p);
    forall q | q in scene.players ensures Reflected(scene, arrivals + [OwnerOf(a, p)], after[q], q) {
      assert Reflected(scene, arrivals, players[q], q);
      HandedMembers(players, from, p, a, q);
      HandedReflected(scene, arrivals, players[q], after[q], a, p, q);
    }
  }

  lemma HandedReflected(scene: Scene, arrivals: seq<Arrival>, player: Player, after: Player, a: Entity, p: Entity,
                        q: Entity)
    requires a in scene.initial && Reflected(scene, arrivals, player, q)
    requires after.hasPlayerMarker == player.hasPlayerMarker && after.controlled == player.controlled
    requires forall b :: b in after.actions <==>
      if b == a then q == p || (OwnerNow(arrivals, a) != Some(q) && b in player.actions) else b in player.actions
    ensures Reflected(scene, arrivals + [OwnerOf(a, p)], after, q)
  {
    OwnersAfter(arrivals, OwnerOf(a, p));
  }

  lemma {:induction false} OwnersArePlayers(scene: Scene, arrivals: seq<Arrival>, a: Entity)
    requires forall x :: x in arrivals ==> Possible(scene, x)
    ensures OwnerNow(arrivals, a).Some? ==> OwnerNow(arrivals, a).value in scene.players
  {
    if arrivals != [] {
      var n := |arrivals| - 1;
      assert arrivals[n] in arrivals && Possible(scene, arrivals[n]);
      OwnersArePlayers(scene, arrivals[..n], a);
    }
  }

  lemma OwnerStep(scene: Scene, arrivals: seq<Arrival>, s: State, a: Entity, p: Entity)
    requires WellFormed(scene) && a in scene.initial && p in scene.players
    requires forall x :: x in arrivals ==> Possible(scene, x)
    requires Reflects(scene, arrivals, s.players) && AllSettled(scene, arrivals, s.actions)
    ensures Reflects(scene, arrivals + [OwnerOf(a, p)], Related(s, a, p).players)
    ensures AllSettled(scene, arrivals + [OwnerOf(a, p)], Related(s, a, p).actions)
  {
    OwnersArePlayers(scene, arrivals, a);
    SettledOwner(scene, arrivals, a);
    OwnerReflected(scene, arrivals, s.players, a, p);
    OwnerInserted(scene, arrivals, s, Handed(s.players, s.actions[a].owner, p, a), a, p);
    FirstActionAdded(scene, arrivals + [OwnerOf(a, p)], s, a, p);
  }

  lemma SettledOwner(scene: Scene, arrivals: seq<Arrival>, a: Entity)
    requires WellFormed(scene) && a in scene.initial
    ensures SettledNow(scene, arrivals, a).owner == OwnerNow(arrivals, a)
  {
  }

  /** If it is the first action of its player, the observer on the player's side runs too, and has nothing to do. */
  lemma FirstActionAdded(scene: Scene, longer: seq<Arrival>, s: State, a: Entity, p: Entity)
    requires WellFormed(scene) && a in s.actions && p in s.players && p in scene.players
    requires var players := Handed(s.players, s.actions[a].owner, p, a);
             && Reflects(scene, longer, players)
             && AllSettled(scene, longer, s.actions[a := OnInsert(s.actions[a].(owner := Some(p)), players)])
    ensures Reflects(scene, longer, Related(s, a, p).players)
    ensures AllSettled(scene, longer, Related(s, a, p).actions)
  {
    var players := Handed(s.players, s.actions[a].owner, p, a);
    OnAddSettles(scene, longer, longer, s.actions[a := OnInsert(s.actions[a].(owner := Some(p)), players)], players, p);
  }

  lemma OwnerInserted(scene: Scene, arrivals: seq<Arrival>, s: State, players: map<Entity, Player>, a: Entity,
                      p: Entity)
    requires WellFormed(scene) && a in scene.initial && p in scene.players
    requires forall x :: x in arrivals ==> Possible(scene, x)
    requires Reflects(scene, arrivals + [OwnerOf(a, p)], players) && AllSettled(scene, arrivals, s.actions)
    ensures AllSettled(scene, arrivals + [OwnerOf(a, p)],
                       s.actions[a := OnInsert(s.actions[a].(owner := Some(p)), players)])
  {
    ControlIsReflected(scene, arrivals + [OwnerOf(a, p)], players);
    InsertSettles(scene, arrivals, OwnerOf(a, p), s, players);
  }

  // ----- A player becomes controlled -----

  /** Both facts are arrivals about `p` alone. */
  ghost predicate OnlyAbout(p: Entity, arrivals: seq<Arrival>, longer: seq<Arrival>) {
    longer == arrivals || longer == arrivals + [MarkerOf(p)] || longer == arrivals + [ControlledOf(p)]
  }

  lemma StatusWhenControlled(arrivals: seq<Arrival>, longer: seq<Arrival>, p: Entity, a: Entity)
    requires OnlyAbout(p, arrivals, longer)
    ensures var st, st' := StatusOf(arrivals, a), StatusOf(longer, a);
            && (st.ever ==> st.typed && st.owner.Some?)
            && if st.owner == Some(p) && st.typed && ControlledNow(longer, p)
               then st' == Status(st.owner, true, true, true) else st' == st
  {
    Extend(arrivals, MarkerOf(p), a);
    Extend(arrivals, ControlledOf(p), a);
    if EverActive(arrivals, a) {
      EverActiveIsKnown(arrivals, a);
    }
  }

  lemma ConfiguredWhenControlled(scene: Scene, arrivals: seq<Arrival>, longer: seq<Arrival>, p: Entity, a: Entity)
    requires WellFormed(scene) && a in scene.initial && OnlyAbout(p, arrivals, longer)
    ensures var now := SettledNow(scene, arrivals, a);
            SettledNow(scene, longer, a)
            == if OwnerNow(longer, a) == Some(p) && ControlledNow(longer, p) then Configure(now, true) else now
  {
    StatusWhenControlled(arrivals, longer, p, a);
    var st := StatusOf(arrivals, a);
    if st.owner == Some(p) && st.typed && ControlledNow(longer, p) {
      ConfigureSettles(scene, a, st, p, true);
      assert Settled(scene, a, st).(owner := Some(p), kind := Some(scene.kind[a])) == Settled(scene, a, st);
    }
  }

  /** The observer on the player's side settles every action of a player that has just become controlled. */
  lemma OnAddSettles(scene: Scene, arrivals: seq<Arrival>, longer: seq<Arrival>, actions: map<Entity, Action>,
                     players: map<Entity, Player>, p: Entity)
    requires WellFormed(scene) && p in scene.players && AllSettled(scene, arrivals, actions)
    requires Reflects(scene, longer, players) && OnlyAbout(p, arrivals, longer)
    ensures AllSettled(scene, longer, OnAdd(actions, players, p))
  {
    assert Reflected(scene, longer, players[p], p);
    ConfigureAllEach(actions, players[p].actions);
    forall a | a in scene.initial
      ensures OnAdd(actions, players, p)[a] == SettledNow(scene, longer, a)
    {
      ConfiguredWhenControlled(scene, arrivals, longer, p, a);
    }
  }

  /** A fact about a player that is new is noted, and changes no relationship. */
  lemma PlayerReflected(scene: Scene, arrivals: seq<Arrival>, x: Arrival, players: map<Entity, Player>, player: Player)
    requires (x.MarkerOf? || x.ControlledOf?) && x.p in scene.players && Reflects(scene, arrivals, players)
    requires player == if x.MarkerOf? then players[x.p].(hasPlayerMarker := true) else players[x.p].(controlled := true)
    ensures Reflects(scene, arrivals + [x], players[x.p := player])
  {
    OwnersAfter(arrivals, x);
    forall q | q in scene.players ensures Reflected(scene, arrivals + [x], players[x.p := player][q], q) {
      assert Reflected(scene, arrivals, players[q], q);
    }
  }

  lemma PlayerStep(scene: Scene, arrivals: seq<Arrival>, s: State, x: Arrival)
    requires WellFormed(scene) && (x.MarkerOf? || x.ControlledOf?) && x.p in scene.players
    requires Reflects(scene, arrivals, s.players) && AllSettled(scene, arrivals, s.actions)
    ensures Reflects(scene, arrivals + [x], Step(scene, s, x).players)
    ensures AllSettled(scene, arrivals + [x], Step(scene, s, x).actions)
  {
    var p := x.p;
    var player := if x.MarkerOf? then s.players[p].(hasPlayerMarker := true) else s.players[p].(controlled := true);
    PlayerReflected(scene, arrivals, x, s.players, player);
    if player == s.players[p] {
      assert s.players[p := player] == s.players;
      NothingNew(scene, arrivals, s, x);
    } else {
      OnAddSettles(scene, arrivals, arrivals + [x], s.actions, s.players[p := player], p);
    }
  }

  /** A repetition changes nothing. */
  lemma NothingNew(scene: Scene, arrivals: seq<Arrival>, s: State, x: Arrival)
    requires WellFormed(scene) && (x.MarkerOf? || x.ControlledOf?) && x.p in scene.players
    requires Reflects(scene, arrivals, s.players) && AllSettled(scene, arrivals, s.actions)
    requires if x.MarkerOf? then s.players[x.p].hasPlayerMarker else s.players[x.p].controlled
    ensures AllSettled(scene, arrivals + [x], s.actions)
  {
    assert Reflected(scene, arrivals, s.players[x.p], x.p);
    forall a | a in scene.initial ensures SettledNow(scene, arrivals + [x], a) == SettledNow(scene, arrivals, a) {
      RepeatedStatus(arrivals, x, a);
    }
  }

  lemma RepeatedStatus(arrivals: seq<Arrival>, x: Arrival, a: Entity)
    requires x in arrivals && (x.MarkerOf? || x.ControlledOf?)
    ensures StatusOf(arrivals + [x], a) == StatusOf(arrivals, a)
  {
    Extend(arrivals, x, a);
  }

  // ----- Every run -----

  lemma StepSettles(scene: Scene, arrivals: seq<Arrival>, s: State, x: Arrival)
    requires WellFormed(scene) && Possible(scene, x) && forall y :: y in arrivals ==> Possible(scene, y)
    requires Reflects(scene, arrivals, s.players) && AllSettled(scene, arrivals, s.actions)
    ensures Reflects(scene, arrivals + [x], Step(scene, s, x).players)
    ensures AllSettled(scene, arrivals + [x], Step(scene, s, x).actions)
  {
    match x
    case OwnerOf(a, p) => OwnerStep(scene, arrivals, s, a, p);
    case KindOf(a) => KindStep(scene, arrivals, s, a);
    case MarkerOf(p) => PlayerStep(scene, arrivals, s, x);
    case ControlledOf(p) => PlayerStep(scene, arrivals, s, x);
  }

  /** After any sequence of arrivals, with repetitions and changes of hands, every action is what its status says: a
      function of its last owner, of what is known of both, and of whether it was ever set up for local input. */
  lemma {:induction false} RunSettles(scene: Scene, arrivals: seq<Arrival>)
    requires WellFormed(scene) && forall x :: x in arrivals ==> Possible(scene, x)
    ensures Reflects(scene, arrivals, Run(scene, arrivals).players)
    ensures AllSettled(scene, arrivals, Run(scene, arrivals).actions)
  {
    if arrivals != [] {
      var n := |arrivals| - 1;
      assert arrivals == arrivals[..n] + [arrivals[n]];
      RunSettles(scene, arrivals[..n]);
      StepSettles(scene, arrivals[..n], Run(scene, arrivals[..n]), arrivals[n]);
    }
  }

  /** No action is given to two players. */
  ghost predicate OneOwnerEach(arrivals: seq<Arrival>) {
    forall a, p, q :: OwnerOf(a, p) in arrivals && OwnerOf(a, q) in arrivals ==> p == q
  }

  lemma {:induction false} OwnerArrived(arrivals: seq<Arrival>, a: Entity)
    ensures OwnerNow(arrivals, a).Some? ==> OwnerOf(a, OwnerNow(arrivals, a).value) in arrivals
    ensures forall p :: OwnerOf(a, p) in arrivals ==> OwnerNow(arrivals, a).Some?
  {
    if arrivals != [] {
      var n := |arrivals| - 1;
      OwnerArrived(arrivals[..n], a);
      assert arrivals == arrivals[..n] + [arrivals[n]];
    }
  }

  /** With one owner each, an action that was ever active still is. */
  lemma {:induction false} ActiveStays(arrivals: seq<Arrival>, a: Entity)
    requires OneOwnerEach(arrivals) && EverActive(arrivals, a)
    ensures ActiveNow(arrivals, a)
  {
    if !ActiveNow(arrivals, a) {
      var n := |arrivals| - 1;
      var before := arrivals[..n];
      assert arrivals == before + [arrivals[n]];
      ActiveStays(before, a);
      OwnerArrived(before, a);
      OwnerArrived(arrivals, a);
    }
  }

  lemma SameStatus(a: seq<Arrival>, b: seq<Arrival>, x: Entity)
    requires OneOwnerEach(a) && forall y :: y in a <==> y in b
    ensures StatusOf(a, x) == StatusOf(b, x)
  {
    OwnerArrived(a, x);
    OwnerArrived(b, x);
    assert OwnerNow(a, x) == OwnerNow(b, x);
    if EverActive(a, x) {
      ActiveStays(a, x);
    }
    if EverActive(b, x) {
      ActiveStays(b, x);
    }
  }

  /** Any two orders of the same arrivals, each action being given to one player, leave every action in the same
      state. */
  lemma Confluence(scene: Scene, a: seq<Arrival>, b: seq<Arrival>)
    requires WellFormed(scene) && (forall x :: x in a ==> Possible(scene, x))
    requires OneOwnerEach(a) && forall x :: x in a <==> x in b
    ensures Run(scene, a).actions == Run(scene, b).actions
  {
    RunSettles(scene, a);
    RunSettles(scene, b);
    forall x | x in scene.initial ensures Run(scene, a).actions[x] == Run(scene, b).actions[x] {
      SameStatus(a, b, x);
    }
  }

  /** A value laid out on two axes: a button is one or nothing on the first, a third axis is dropped. */
  predicate OnTwoAxes(v: ActionValue, r: ActionValue) {
    match v
    case Bool(b) => r == Axis2D(if b then 1.0 else 0.0, 0.0)
    case Axis1D(x) => r == Axis2D(x, 0.0)
    case Axis2D(x, y) => r == Axis2D(x, y)
    case Axis3D(x, y, _) => r == Axis2D(x, y)
  }

  /** The binding of its kind unless there was one already; for a cursor, the mock there was if it is enabled, otherwise
      an enabled one with its value on two axes, zero if there was none. */
  predicate HasSource(a: Action, initial: Action) {
    a.kind.Some? &&
    match a.kind.value
    case MovePlayer =>
      a.bindings == (if initial.bindings.Some? then initial.bindings else Some(WasdKeys)) && a.mock == initial.mock
    case Shoot =>
      a.bindings == (if initial.bindings.Some? then initial.bindings else Some(SpaceKey)) && a.mock == initial.mock
    case MoveCursor =>
      && a.bindings == initial.bindings
      && a.mock.Some? && a.mock.value.enabled
      && (initial.mock.Some? && initial.mock.value.enabled ==> a.mock == initial.mock)
      && (initial.mock.Some? && !initial.mock.value.enabled ==>
            OnTwoAxes(initial.mock.value.value, a.mock.value.value))
      && (initial.mock.None? ==> a.mock.value.value == Axis2D(0.0, 0.0))
  }

  /** A known action has its marker exactly if its player is controlled, and is mocked exactly if not; before its owner
      and kind are known it is left alone. It has its source once it was set up for local input, and keeps it. */
  predicate ProperlySetUp(action: Action, initial: Action, st: Status) {
    var known := st.typed && st.owner.Some?;
    && action.owner == st.owner
    && (action.hasMarker <==> st.active) && (action.externallyMocked <==> known && !st.active)
    && (st.active ==> st.ever)
    && (st.ever ==> HasSource(action, initial))
    && (!st.ever ==> action.bindings == initial.bindings && action.mock == initial.mock)
  }

  lemma SettledIsProper(scene: Scene, arrivals: seq<Arrival>, a: Entity)
    requires WellFormed(scene) && a in scene.initial
    ensures ProperlySetUp(SettledNow(scene, arrivals, a), scene.initial[a], StatusOf(arrivals, a))
  {
    if EverActive(arrivals, a) {
      EverActiveIsKnown(arrivals, a);
    }
  }

  /** The race is won at every moment: whatever has arrived so far, in whatever order and however often actions have
      changed hands, every action is set up for exactly what is known of it and of the player it belongs to now. */
  lemma RaceIsWon(scene: Scene, arrivals: seq<Arrival>, a: Entity)
    requires WellFormed(scene) && (forall x :: x in arrivals ==> Possible(scene, x)) && a in scene.initial
    ensures a in Run(scene, arrivals).actions
    ensures ProperlySetUp(Run(scene, arrivals).actions[a], scene.initial[a], StatusOf(arrivals, a))
  {
    RunSettles(scene, arrivals);
    SettledIsProper(scene, arrivals, a);
  }

  /** Order does matter for an action given to two players: the last one decides. Given to player 2 and then to the
      controlled player 1 it has its marker, the other way round the mock. */
  lemma LastOwnerDecides(initial: Action)
    requires initial.owner.None? && initial.kind.None? && !initial.hasMarker && !initial.externallyMocked
    ensures var scene := Scene(map[0 := Shoot], map[0 := initial], {1, 2});
            var known := [MarkerOf(1), ControlledOf(1), KindOf(0)];
            var a, b := known + [OwnerOf(0, 2), OwnerOf(0, 1)], known + [OwnerOf(0, 1), OwnerOf(0, 2)];
            && 0 in Run(scene, a).actions && Run(scene, a).actions[0].hasMarker
            && 0 in Run(scene, b).actions && Run(scene, b).actions[0].externallyMocked
  {
    var scene := Scene(map[0 := Shoot], map[0 := initial], {1, 2});
    var known := [MarkerOf(1), ControlledOf(1), KindOf(0)];
    ExampleStatus(known, 2, 1);
    ExampleStatus(known, 1, 2);
    RaceIsWon(scene, known + [OwnerOf(0, 2), OwnerOf(0, 1)], 0);
    RaceIsWon(scene, known + [OwnerOf(0, 1), OwnerOf(0, 2)], 0);
  }

  lemma ExampleStatus(known: seq<Arrival>, q: Entity, p: Entity)
    requires known == [MarkerOf(1), ControlledOf(1), KindOf(0)]
    ensures var st := StatusOf(known + [OwnerOf(0, q), OwnerOf(0, p)], 0);
            st.owner == Some(p) && st.typed && (st.active <==> p == 1)
  {
    var before := known + [OwnerOf(0, q)];
    assert known + [OwnerOf(0, q), OwnerOf(0, p)] == before + [OwnerOf(0, p)];
    assert before[2] in before && before[0] in before && before[1] in before;
    Extend(before, OwnerOf(0, p), 0);
  }
}
