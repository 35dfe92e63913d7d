/** What every run of the lobby server keeps, and what it spawns. */
module LobbyRuns {
  import opened Options
  import opened Lobbies
  import opened Sequences

  // ----- The invariant -----

  predicate Fresh(l: Lobby) {
    l.players == [] && l.host.None? && !l.inGame
  }

  ghost predicate EmptyAt(lobbies: seq<Lobby>, e: nat) {
    && e < |lobbies| && Fresh(lobbies[e])
    && forall i :: 0 <= i < |lobbies| && i != e ==> lobbies[i].players != []
  }

  /** Exactly one lobby is empty, and it is fresh. */
  ghost predicate OneEmpty(lobbies: seq<Lobby>) {
    exists e: nat :: EmptyAt(lobbies, e)
  }

  predicate Distinct(players: seq<Client>) {
    forall i, j :: 0 <= i < j < |players| ==> players[i] != players[j]
  }

  /** Each client is in at most one lobby, at most once. */
  ghost predicate Members(lobbies: seq<Lobby>) {
    && (forall i :: 0 <= i < |lobbies| ==> Distinct(lobbies[i].players))
    && forall i, j, c ::
         0 <= i < |lobbies| && 0 <= j < |lobbies| && c in lobbies[i].players && c in lobbies[j].players ==> i == j
  }

  ghost predicate DistinctRooms(lobbies: seq<Lobby>, next: Room) {
    && (forall i :: 0 <= i < |lobbies| ==> lobbies[i].room < next)
    && forall i, j :: 0 <= i < |lobbies| && 0 <= j < |lobbies| && lobbies[i].room == lobbies[j].room ==> i == j
  }

  ghost predicate Inv(s: State) {
    OneEmpty(s.lobbies) && Members(s.lobbies) && DistinctRooms(s.lobbies, s.nextRoom)
  }

  predicate InSome(lobbies: seq<Lobby>, c: Client) {
    exists i :: 0 <= i < |lobbies| && c in lobbies[i].players
  }

  // ----- Removing a client -----

  lemma {:induction false} RemoveFirstMembers(players: seq<Client>, c: Client)
    requires Distinct(players)
    ensures Distinct(RemoveFirst(players, c))
    ensures forall d :: d in RemoveFirst(players, c) <==> d in players && d != c
  {
    if players != [] {
      assert players == [players[0]] + players[1..];
      if players[0] == c {
        assert c !in players[1..];
      } else {
        RemoveFirstMembers(players[1..], c);
        var rest := RemoveFirst(players[1..], c);
        assert forall k :: 0 <= k < |rest| ==> rest[k] in rest;
      }
    }
  }

  lemma StripKeepsMembers(lobbies: seq<Lobby>, c: Client)
    requires Members(lobbies)
    ensures Members(StripAll(lobbies, c))
    ensures !InSome(StripAll(lobbies, c), c)
  {
    forall i | 0 <= i < |lobbies|
      ensures Distinct(StripAll(lobbies, c)[i].players)
      ensures forall d :: d in StripAll(lobbies, c)[i].players <==> d in lobbies[i].players && d != c
    {
      RemoveFirstMembers(lobbies[i].players, c);
    }
  }

  lemma DropKeepsMembers(lobbies: seq<Lobby>, i: nat)
    requires i < |lobbies| && Members(lobbies)
    ensures Members(DropAt(lobbies, i))
  {
  }

  lemma RemoveKeepsMembers(lobbies: seq<Lobby>, c: Client)
    requires Members(lobbies)
    ensures Members(RemoveClient(lobbies, c)) && !InSome(RemoveClient(lobbies, c), c)
  {
    StripKeepsMembers(lobbies, c);
    var emptied := LastEmptied(lobbies, c);
    if emptied.Some? {
      DropKeepsMembers(StripAll(lobbies, c), emptied.value);
    }
  }

  /** Where the `k`-th lobby left by a removal was before. */
  function Source(lobbies: seq<Lobby>, c: Client, k: nat): nat {
    var emptied := LastEmptied(lobbies, c);
    if emptied.Some? && emptied.value <= k then k + 1 else k
  }

  lemma DropAtIndex<T>(s: seq<T>, i: nat, k: nat)
    requires i < |s| && k < |s| - 1
    ensures |DropAt(s, i)| == |s| - 1
    ensures DropAt(s, i)[k] == s[if i <= k then k + 1 else k]
  {
  }

  lemma RemoveIsStrip(lobbies: seq<Lobby>, c: Client, k: nat)
    requires k < |RemoveClient(lobbies, c)|
    ensures Source(lobbies, c, k) < |lobbies|
    ensures RemoveClient(lobbies, c)[k] == Strip(lobbies[Source(lobbies, c, k)], c)
  {
    var emptied := LastEmptied(lobbies, c);
    if emptied.Some? {
      DropAtIndex(StripAll(lobbies, c), emptied.value, k);
    }
  }

  lemma RemoveKeepsRooms(lobbies: seq<Lobby>, c: Client, next: Room)
    requires DistinctRooms(lobbies, next)
    ensures DistinctRooms(RemoveClient(lobbies, c), next)
  {
    var after := RemoveClient(lobbies, c);
    forall k | 0 <= k < |after|
      ensures Source(lobbies, c, k) < |lobbies| && after[k].room == lobbies[Source(lobbies, c, k)].room
    {
      RemoveIsStrip(lobbies, c, k);
    }
    forall k, m | 0 <= k < |after| && 0 <= m < |after| && after[k].room == after[m].room ensures k == m {
      assert Source(lobbies, c, k) == Source(lobbies, c, m);
    }
  }

  lemma StripEmpties(l: Lobby, c: Client)
    ensures Strip(l, c).players == [] <==> l.players == [] || Empties(l, c)
  {
    if c !in l.players {
      RemoveAbsent(l.players, c);
    }
  }

  lemma RemoveKeepsOneEmpty(lobbies: seq<Lobby>, c: Client)
    requires OneEmpty(lobbies) && Members(lobbies)
    ensures OneEmpty(RemoveClient(lobbies, c))
  {
    var e: nat :| EmptyAt(lobbies, e);
    var stripped := StripAll(lobbies, c);
    forall i | 0 <= i < |lobbies|
      ensures stripped[i].players == [] <==> i == e || Empties(lobbies[i], c)
    {
      StripEmpties(lobbies[i], c);
    }
    var emptied := LastEmptied(lobbies, c);
    if emptied.None? {
      assert EmptyAt(stripped, e);
    } else {
      var i := emptied.value;
      assert forall k :: 0 <= k < |lobbies| && Empties(lobbies[k], c) ==> k == i;
      assert EmptyAt(DropAt(stripped, i), if e < i then e else e - 1);
    }
  }

  lemma RemoveKeepsInv(s: State, c: Client)
    requires Inv(s)
    ensures Inv(Exited(s, c)) && Inv(Disconnected(s, c))
  {
    RemoveKeepsOneEmpty(s.lobbies, c);
    RemoveKeepsMembers(s.lobbies, c);
    RemoveKeepsRooms(s.lobbies, c, s.nextRoom);
  }

  // ----- Joining -----

  lemma PushMembersIff(lobbies: seq<Lobby>, id: nat, c: Client)
    requires Members(lobbies) && id < |lobbies|
    ensures Members(Pushed(lobbies, id, c)) <==> !InSome(lobbies, c)
  {
    var pushed := Pushed(lobbies, id, c);
    if InSome(lobbies, c) {
      var i :| 0 <= i < |lobbies| && c in lobbies[i].players;
      var n := |lobbies[id].players|;
      if i == id {
        var k :| 0 <= k < n && lobbies[id].players[k] == c;
        assert pushed[id].players[k] == pushed[id].players[n];
      } else {
        assert c in pushed[i].players && pushed[id].players[n] == c;
      }
    }
  }

  lemma OpenKeepsMembers(lobbies: seq<Lobby>, room: Room)
    ensures Members(Opened(lobbies, room)) <==> Members(lobbies)
  {
    var wider := Opened(lobbies, room);
    if Members(wider) {
      forall i | 0 <= i < |lobbies| ensures wider[i] == lobbies[i] {
      }
    }
  }

  lemma JoinKeepsOneEmpty(lobbies: seq<Lobby>, id: nat, c: Client, room: Room)
    requires OneEmpty(lobbies) && id < |lobbies|
    ensures OneEmpty(Opened(Pushed(lobbies, id, c), room))
  {
    var e: nat :| EmptyAt(lobbies, e);
    var pushed := Pushed(lobbies, id, c);
    if e == id {
      assert !HasEmptyLobby(pushed);
      assert EmptyAt(Opened(pushed, room), |lobbies|);
    } else {
      assert pushed[e].players == [];
      assert EmptyAt(pushed, e);
    }
  }

  /** Joining keeps the invariant exactly when the client comes from no lobby. */
  lemma JoinKeepsInvIff(s: State, c: Client, id: nat)
    requires Inv(s) && id < |s.lobbies|
    ensures Inv(Joined(s, c, id)) <==> !InSome(s.lobbies, c)
  {
    JoinKeepsOneEmpty(s.lobbies, id, c, s.nextRoom);
    PushMembersIff(s.lobbies, id, c);
    OpenKeepsMembers(Pushed(s.lobbies, id, c), s.nextRoom);
    JoinKeepsRooms(s, c, id);
  }

  lemma JoinKeepsRooms(s: State, c: Client, id: nat)
    requires DistinctRooms(s.lobbies, s.nextRoom) && id < |s.lobbies|
    ensures DistinctRooms(Joined(s, c, id).lobbies, Joined(s, c, id).nextRoom)
  {
  }

  // ----- Starting -----

  /** Starting keeps the invariant exactly when the sender is in that lobby, or in none and the lobby has players. */
  lemma StartKeepsInvIff(s: State, c: Client, id: nat, host: Option<Client>)
    requires Inv(s) && id < |s.lobbies|
    ensures Inv(Started(s, c, id, host)) <==>
            c in s.lobbies[id].players || (!InSome(s.lobbies, c) && s.lobbies[id].players != [])
  {
    var lobbies := s.lobbies[id := InGame(s.lobbies[id], host)];
    SamePlayersSameMembers(s.lobbies, lobbies, c);
    var s' := Started(s, c, id, host);
    assert DistinctRooms(s'.lobbies, s'.nextRoom);
    var e: nat :| EmptyAt(s.lobbies, e);
    if c in s.lobbies[id].players {
      assert EmptyAt(s'.lobbies, e);
    } else {
      PushMembersIff(lobbies, id, c);
      StartByOutsiderEmpty(s, c, id, host, e);
    }
  }

  lemma SamePlayersSameMembers(a: seq<Lobby>, b: seq<Lobby>, c: Client)
    requires |a| == |b| && forall i :: 0 <= i < |a| ==> a[i].players == b[i].players
    ensures Members(a) <==> Members(b)
    ensures InSome(a, c) <==> InSome(b, c)
  {
  }

  lemma StartByOutsiderEmpty(s: State, c: Client, id: nat, host: Option<Client>, e: nat)
    requires id < |s.lobbies| && EmptyAt(s.lobbies, e) && c !in s.lobbies[id].players
    ensures OneEmpty(Started(s, c, id, host).lobbies) <==> s.lobbies[id].players != []
  {
    var after := Started(s, c, id, host).lobbies;
    if id == e {
      forall i: nat ensures !EmptyAt(after, i) {
        assert i < |after| ==> after[i].players != [];
      }
    } else {
      assert EmptyAt(after, e);
    }
  }

  // ----- Nobody else is lost -----

  /** How often `d` is listed in a lobby with this room, host and state. */
  function Listed(d: Client, room: Room, host: Option<Client>, inGame: bool): Lobby -> int {
    (l: Lobby) => if l.room == room && l.host == host && l.inGame == inGame then multiset(l.players)[d] else 0
  }

  lemma {:induction false} RemoveFirstKeepsOthers(players: seq<Client>, c: Client, d: Client)
    requires d != c
    ensures multiset(RemoveFirst(players, c))[d] == multiset(players)[d]
  {
    if players != [] {
      assert players == [players[0]] + players[1..];
      if players[0] != c {
        RemoveFirstKeepsOthers(players[1..], c, d);
      }
    }
  }

  lemma {:induction false} StripKeepsOthers(lobbies: seq<Lobby>, c: Client, d: Client, room: Room, host: Option<Client>,
                                            inGame: bool)
    requires d != c
    ensures Sum(Listed(d, room, host, inGame), StripAll(lobbies, c)) == Sum(Listed(d, room, host, inGame), lobbies)
  {
    if lobbies != [] {
      assert StripAll(lobbies, c)[1..] == StripAll(lobbies[1..], c);
      StripKeepsOthers(lobbies[1..], c, d, room, host, inGame);
      RemoveFirstKeepsOthers(lobbies[0].players, c, d);
    }
  }

  function RoomList(lobbies: seq<Lobby>): seq<Room> {
    seq(|lobbies|, i requires 0 <= i < |lobbies| => lobbies[i].room)
  }

  /** Removing a client, from any list of lobbies: every other client is listed as often as before with the same
      room, host and state, although indices shift. */
  lemma RemoveLosesNobodyElse(lobbies: seq<Lobby>, c: Client, d: Client, room: Room, host: Option<Client>, inGame: bool)
    requires d != c
    ensures Sum(Listed(d, room, host, inGame), RemoveClient(lobbies, c)) == Sum(Listed(d, room, host, inGame), lobbies)
  {
    StripKeepsOthers(lobbies, c, d, room, host, inGame);
    var emptied := LastEmptied(lobbies, c);
    if emptied.Some? {
      SumWithout(Listed(d, room, host, inGame), StripAll(lobbies, c), emptied.value);
    }
  }

  /** The lobbies keep their order, and only a lobby that has just lost its last player can be dropped. */
  lemma RemoveKeepsOrder(lobbies: seq<Lobby>, c: Client)
    ensures RoomList(RemoveClient(lobbies, c)) == RoomList(lobbies)
         || exists i :: 0 <= i < |lobbies| && Empties(lobbies[i], c)
                        && RoomList(RemoveClient(lobbies, c)) == DropAt(RoomList(lobbies), i)
  {
    var emptied := LastEmptied(lobbies, c);
    if emptied.None? {
      assert RoomList(StripAll(lobbies, c)) == RoomList(lobbies);
    } else {
      assert RoomList(DropAt(StripAll(lobbies, c), emptied.value)) == DropAt(RoomList(lobbies), emptied.value);
    }
  }

  // ----- Field by field -----

  /** What a join does: the client comes last in the lobby it named and is in its room; that lobby and all others keep
      host, room and state; and one fresh lobby with a new room is added exactly if no other lobby is empty. */
  lemma JoinEffect(s: State, c: Client, id: nat)
    requires id < |s.lobbies|
    ensures var s', l := Joined(s, c, id), s.lobbies[id];
            && |s.lobbies| <= |s'.lobbies|
            && s'.lobbies[id] == Lobby(l.players + [c], l.host, l.room, l.inGame)
            && (forall i :: 0 <= i < |s.lobbies| && i != id ==> s'.lobbies[i] == s.lobbies[i])
            && (if exists i :: 0 <= i < |s.lobbies| && i != id && s.lobbies[i].players == []
                then |s'.lobbies| == |s.lobbies| && s'.nextRoom == s.nextRoom
                else && s'.lobbies[|s.lobbies|..] == [Lobby([], None, s.nextRoom, false)]
                     && s'.nextRoom == s.nextRoom + 1)
            && s'.connected == s.connected && s'.rooms == s.rooms[c := l.room]
            && s'.spawned == (if l.inGame then s.spawned + [Spawn(c, l.room)] else s.spawned)
  {
    var pushed := Pushed(s.lobbies, id, c);
    assert HasEmptyLobby(pushed) <==> exists i :: 0 <= i < |s.lobbies| && i != id && s.lobbies[i].players == [] by {
      if i :| 0 <= i < |s.lobbies| && i != id && s.lobbies[i].players == [] {
        assert pushed[i].players == [];
      }
    }
  }

  /** What a start does: the lobby named is in game, with the host the message names if it has just begun; the sender is
      in it, last if it was not before; every other lobby is as it was. Only an outsider that names no host changes its
      room; who gets an entity is in `StartSpawnsExactly`. */
  lemma StartEffect(s: State, c: Client, id: nat, host: Option<Client>)
    requires id < |s.lobbies|
    ensures var s', l := Started(s, c, id, host), s.lobbies[id];
            && |s'.lobbies| == |s.lobbies|
            && s'.lobbies[id] == Lobby(if c in l.players then l.players else l.players + [c],
                                       if l.inGame then l.host else host, l.room, true)
            && (forall i :: 0 <= i < |s.lobbies| && i != id ==> s'.lobbies[i] == s.lobbies[i])
            && s'.nextRoom == s.nextRoom && s'.connected == s.connected
            && s'.rooms == (if c !in l.players && host.None? then s.rooms[c := l.room] else s.rooms)
  {
  }

  lemma {:induction false} SpawnAllCounts(players: seq<Client>, room: Room, connected: set<Client>, d: Client,
                                          room': Room)
    ensures multiset(SpawnAll(players, room, connected))[Spawn(d, room')]
         == if d in connected && room == room' then multiset(players)[d] else 0
  {
    if players != [] {
      var n := |players| - 1;
      assert players == players[..n] + [players[n]];
      SpawnAllCounts(players[..n], room, connected, d, room');
    }
  }

  /** Who gets an entity from a start that names no host: the sender if it comes from outside, every connected player,
      as often as it is listed, if the game has just begun, and nobody otherwise; and nobody if it names one. */
  lemma StartSpawnsExactly(s: State, c: Client, id: nat, host: Option<Client>, d: Client, room: Room)
    requires id < |s.lobbies|
    ensures var l := s.lobbies[id];
            Spawns(Started(s, c, id, host), d, room) - Spawns(s, d, room)
            == if host.Some? || l.room != room then 0
               else if c !in l.players then (if d == c then 1 else 0)
               else if !l.inGame && d in s.connected then multiset(l.players)[d]
               else 0
  {
    SpawnAllCounts(s.lobbies[id].players, s.lobbies[id].room, s.connected, d, room);
  }

  /** The lobby has lost the first mention of the client, if any, and nothing else. */
  ghost predicate LostFirst(l: Lobby, l': Lobby, c: Client) {
    && l'.room == l.room && l'.host == l.host && l'.inGame == l.inGame
    && (c !in l.players ==> l'.players == l.players)
    && (c in l.players ==> exists k :: 0 <= k < |l.players| && LostAt(l.players, l'.players, c, k))
  }

  predicate LostAt(players: seq<Client>, left: seq<Client>, c: Client, k: nat) {
    k < |players| && players[k] == c && c !in players[..k] && left == players[..k] + players[k + 1..]
  }

  lemma {:induction false} RemoveFirstAt(players: seq<Client>, c: Client) returns (k: nat)
    requires c in players
    ensures k < |players| && LostAt(players, RemoveFirst(players, c), c, k)
  {
    if players[0] == c {
      k := 0;
    } else {
      k := RemoveFirstAt(players[1..], c);
      LostCons(players[0], players[1..], RemoveFirst(players[1..], c), c, k);
      assert players == [players[0]] + players[1..];
      k := k + 1;
    }
  }

  lemma LostCons(first: Client, players: seq<Client>, left: seq<Client>, c: Client, k: nat)
    requires first != c && LostAt(players, left, c, k)
    ensures LostAt([first] + players, [first] + left, c, k + 1)
  {
    var all := [first] + players;
    assert all[..k + 1] == [first] + players[..k];
    assert all[k + 2..] == players[k + 1..];
    assert [first] + left == all[..k + 1] + all[k + 2..];
  }

  lemma StripLosesFirst(l: Lobby, c: Client)
    ensures LostFirst(l, Strip(l, c), c)
    ensures Empties(l, c) <==> l.players == [c]
  {
    if c in l.players {
      var k := RemoveFirstAt(l.players, c);
      assert l.players == l.players[..k] + [c] + l.players[k + 1..];
    } else {
      RemoveAbsent(l.players, c);
    }
  }

  /** The last lobby with nobody but the client. */
  ghost predicate LastAlone(lobbies: seq<Lobby>, c: Client, j: nat) {
    && j < |lobbies| && lobbies[j].players == [c]
    && forall i :: j < i < |lobbies| ==> lobbies[i].players != [c]
  }

  lemma LastEmptiedIs(lobbies: seq<Lobby>, c: Client)
    ensures forall j: nat :: LastAlone(lobbies, c, j) <==> LastEmptied(lobbies, c) == Some(j)
    ensures LastEmptied(lobbies, c).None? <==> forall i :: 0 <= i < |lobbies| ==> lobbies[i].players != [c]
  {
    forall i | 0 <= i < |lobbies| ensures Empties(lobbies[i], c) <==> lobbies[i].players == [c] {
      StripLosesFirst(lobbies[i], c);
    }
  }

  /** What removing a client does to the list: if no lobby has nobody else, every lobby loses the first mention of the
      client, in its place. */
  lemma RemoveEffect(lobbies: seq<Lobby>, c: Client, i: nat)
    requires i < |lobbies| && forall k :: 0 <= k < |lobbies| ==> lobbies[k].players != [c]
    ensures |RemoveClient(lobbies, c)| == |lobbies|
    ensures LostFirst(lobbies[i], RemoveClient(lobbies, c)[i], c)
  {
    LastEmptiedIs(lobbies, c);
    StripLosesFirst(lobbies[i], c);
  }

  /** Otherwise the last such lobby is dropped, and the others do the same. */
  lemma RemoveDropsEffect(lobbies: seq<Lobby>, c: Client, i: nat, j: nat)
    requires i < |lobbies| && LastAlone(lobbies, c, j)
    ensures |RemoveClient(lobbies, c)| == |lobbies| - 1
    ensures i < j ==> LostFirst(lobbies[i], RemoveClient(lobbies, c)[i], c)
    ensures i > j ==> LostFirst(lobbies[i], RemoveClient(lobbies, c)[i - 1], c)
  {
    LastAloneIsEmptied(lobbies, c, j);
    DroppedLength(lobbies, c, j);
    StripLosesFirst(lobbies[i], c);
    if i != j {
      RemoveIsStrip(lobbies, c, if i < j then i else i - 1);
    }
  }

  lemma LastAloneIsEmptied(lobbies: seq<Lobby>, c: Client, j: nat)
    requires LastAlone(lobbies, c, j)
    ensures LastEmptied(lobbies, c) == Some(j)
  {
    LastEmptiedIs(lobbies, c);
  }

  lemma DroppedLength(lobbies: seq<Lobby>, c: Client, j: nat)
    requires LastEmptied(lobbies, c) == Some(j)
    ensures |RemoveClient(lobbies, c)| == |lobbies| - 1
  {
  }

  /** And to the rest: an exit takes the client out of its room, a disconnection also out of the connected clients. */
  lemma LeaveEffect(s: State, c: Client)
    ensures Exited(s, c) == State(RemoveClient(s.lobbies, c), s.nextRoom, s.connected, s.rooms - {c}, s.spawned)
    ensures Disconnected(s, c) == Exited(s, c).(connected := s.connected - {c})
  {
  }

  // ----- Runs -----

  datatype Event = Connect(c: Client) | Join(c: Client, id: nat) | Exit(c: Client)
                 | Start(c: Client, id: nat, host: Option<Client>) | Disconnect(c: Client)

  /** A lobby index out of range panics; the discipline below rules it out. */
  function Next(s: State, e: Event): State {
    match e
    case Connect(c) => s.(connected := s.connected + {c})
    case Join(c, id) => if id < |s.lobbies| then Joined(s, c, id) else s
    case Exit(c) => Exited(s, c)
    case Start(c, id, host) => if id < |s.lobbies| then Started(s, c, id, host) else s
    case Disconnect(c) => Disconnected(s, c)
  }

  /** Clients name existing lobbies, join from no lobby, and start their own lobby or, from no lobby, one in game. */
  predicate Disciplined(s: State, e: Event) {
    match e
    case Connect(c) => true
    case Join(c, id) => c in s.connected && id < |s.lobbies| && !InSome(s.lobbies, c)
    case Exit(c) => true
    case Start(c, id, host) =>
      && c in s.connected && id < |s.lobbies|
      && (c in s.lobbies[id].players || (!InSome(s.lobbies, c) && s.lobbies[id].inGame))
    case Disconnect(c) => true
  }

  /** What the server goes through, whatever messages it gets. */
  ghost predicate IsHistory(states: seq<State>, events: seq<Event>) {
    |states| == |events| + 1 && forall n :: 0 <= n < |events| ==> NextAt(states, events, n)
  }

  ghost predicate NextAt(states: seq<State>, events: seq<Event>, n: nat)
    requires n < |events| < |states|
  {
    states[n + 1] == Next(states[n], events[n])
  }

  /** The same with disciplined clients. */
  ghost predicate IsRun(states: seq<State>, events: seq<Event>) {
    |states| == |events| + 1 && forall n :: 0 <= n < |events| ==> StepsAt(states, events, n)
  }

  ghost predicate StepsAt(states: seq<State>, events: seq<Event>, n: nat)
    requires n < |events| < |states|
  {
    Disciplined(states[n], events[n]) && NextAt(states, events, n)
  }

  /** Every member of a lobby is connected. */
  ghost predicate MembersConnected(s: State) {
    forall i, c :: 0 <= i < |s.lobbies| && c in s.lobbies[i].players ==> c in s.connected
  }

  lemma StepKeepsInv(s: State, e: Event)
    requires Inv(s) && Disciplined(s, e)
    ensures Inv(Next(s, e))
  {
    var empty: nat :| EmptyAt(s.lobbies, empty);
    assert e.Start? && s.lobbies[e.id].inGame ==> e.id != empty;
    StepKeepsInvIff(s, e);
  }

  /** The lobby in which the client was before, and that it was not the client removed. */
  lemma RemovedFrom(lobbies: seq<Lobby>, c: Client, k: nat) returns (i: nat)
    requires Members(lobbies) && k < |RemoveClient(lobbies, c)|
    ensures i < |lobbies| && RemoveClient(lobbies, c)[k] == Strip(lobbies[i], c)
    ensures forall d :: d in RemoveClient(lobbies, c)[k].players <==> d in lobbies[i].players && d != c
  {
    i := Source(lobbies, c, k);
    RemoveIsStrip(lobbies, c, k);
    RemoveFirstMembers(lobbies[i].players, c);
  }

  lemma StepKeepsMembersConnected(s: State, e: Event)
    requires Inv(s) && MembersConnected(s) && Disciplined(s, e)
    ensures MembersConnected(Next(s, e))
  {
    if e.Exit? || e.Disconnect? {
      forall k, d | 0 <= k < |Next(s, e).lobbies| && d in Next(s, e).lobbies[k].players
        ensures d in Next(s, e).connected
      {
        var i := RemovedFrom(s.lobbies, e.c, k);
      }
    }
  }

  /** Over every run from the start: one empty, fresh lobby; each client in at most one lobby and at most once; rooms
      pairwise distinct; and only connected clients in lobbies. */
  lemma {:induction false} RunKeepsInv(states: seq<State>, events: seq<Event>, firstRoom: Room, n: nat)
    requires IsRun(states, events) && states[0] == Initial(firstRoom) && n <= |events|
    ensures Inv(states[n]) && MembersConnected(states[n])
  {
    if n == 0 {
      assert EmptyAt(states[0].lobbies, 0);
    } else {
      RunKeepsInv(states, events, firstRoom, n - 1);
      assert StepsAt(states, events, n - 1);
      StepKeepsInv(states[n - 1], events[n - 1]);
      StepKeepsMembersConnected(states[n - 1], events[n - 1]);
    }
  }

  /** A join from no lobby; a start by a member, or from no lobby of a lobby with players; any other message. */
  predicate Orderly(s: State, e: Event) {
    match e
    case Join(c, id) => id < |s.lobbies| ==> !InSome(s.lobbies, c)
    case Start(c, id, host) =>
      id < |s.lobbies| ==> c in s.lobbies[id].players || (!InSome(s.lobbies, c) && s.lobbies[id].players != [])
    case _ => true
  }

  lemma StepKeepsInvIff(s: State, e: Event)
    requires Inv(s)
    ensures Inv(Next(s, e)) <==> Orderly(s, e)
  {
    match e
    case Connect(c) =>
    case Join(c, id) => if id < |s.lobbies| { JoinKeepsInvIff(s, c, id); }
    case Exit(c) => RemoveKeepsInv(s, c);
    case Start(c, id, host) => if id < |s.lobbies| { StartKeepsInvIff(s, c, id, host); }
    case Disconnect(c) => RemoveKeepsInv(s, c);
  }

  /** Whatever messages the server gets, it has kept the invariant so far if and only if all of them were orderly. */
  lemma {:induction false} HistoryKeepsInvIff(states: seq<State>, events: seq<Event>, firstRoom: Room, n: nat)
    requires IsHistory(states, events) && states[0] == Initial(firstRoom) && n <= |events|
    ensures (forall k :: 0 <= k <= n ==> Inv(states[k])) <==> (forall k :: 0 <= k < n ==> Orderly(states[k], events[k]))
  {
    if n == 0 {
      assert EmptyAt(states[0].lobbies, 0);
    } else {
      HistoryKeepsInvIff(states, events, firstRoom, n - 1);
      if Inv(states[n - 1]) {
        assert NextAt(states, events, n - 1);
        StepKeepsInvIff(states[n - 1], events[n - 1]);
      }
    }
  }

  // ----- The host of a game -----

  lemma StepKeepsRooms(s: State, e: Event)
    requires DistinctRooms(s.lobbies, s.nextRoom)
    ensures DistinctRooms(Next(s, e).lobbies, Next(s, e).nextRoom) && Next(s, e).nextRoom >= s.nextRoom
  {
    match e
    case Connect(c) =>
    case Join(c, id) => if id < |s.lobbies| { JoinKeepsRooms(s, c, id); }
    case Exit(c) => RemoveKeepsRooms(s.lobbies, c, s.nextRoom);
    case Start(c, id, host) => if id < |s.lobbies| { StartKeepsRooms(s, c, id, host); }
    case Disconnect(c) => RemoveKeepsRooms(s.lobbies, c, s.nextRoom);
  }

  /** Where lobby `k` was before the step, unless its room has just been allocated. */
  lemma StepRooms(s: State, e: Event, k: nat) returns (i: nat)
    requires k < |Next(s, e).lobbies| && Next(s, e).lobbies[k].room < s.nextRoom
    ensures i < |s.lobbies| && s.lobbies[i].room == Next(s, e).lobbies[k].room
    ensures s.lobbies[i].inGame ==>
      Next(s, e).lobbies[k].inGame && Next(s, e).lobbies[k].host == s.lobbies[i].host
  {
    if e.Exit? || e.Disconnect? {
      i := Source(s.lobbies, e.c, k);
      RemoveIsStrip(s.lobbies, e.c, k);
    } else {
      i := k;
    }
  }

  lemma {:induction false} HistoryKeepsRooms(states: seq<State>, events: seq<Event>, firstRoom: Room, m: nat, n: nat)
    requires IsHistory(states, events) && states[0] == Initial(firstRoom) && m <= n <= |events|
    ensures DistinctRooms(states[n].lobbies, states[n].nextRoom) && states[m].nextRoom <= states[n].nextRoom
    decreases n
  {
    if n > 0 {
      HistoryKeepsRooms(states, events, firstRoom, if m < n then m else n - 1, n - 1);
      assert NextAt(states, events, n - 1);
      StepKeepsRooms(states[n - 1], events[n - 1]);
    }
  }

  /** Once a lobby is in game, its host is the same for the rest of its life: whatever messages the server gets, in any
      later state the lobby with its room is still in game, with that host. */
  lemma {:induction false} HostNeverChanges(states: seq<State>, events: seq<Event>, firstRoom: Room, m: nat, n: nat,
                                            i: nat, k: nat)
    requires IsHistory(states, events) && states[0] == Initial(firstRoom) && m <= n < |states|
    requires i < |states[m].lobbies| && k < |states[n].lobbies|
    requires states[m].lobbies[i].room == states[n].lobbies[k].room
    requires states[m].lobbies[i].inGame
    ensures states[n].lobbies[k].inGame && states[n].lobbies[k].host == states[m].lobbies[i].host
    decreases n
  {
    if m == n {
      SameRoomSameLobby(states, events, firstRoom, n, i, k);
    } else {
      RoomsAreOld(states, events, firstRoom, m, n - 1, i);
      var j := HistoryStepKeepsHost(states, events, n - 1, k);
      HostNeverChanges(states, events, firstRoom, m, n - 1, i, j);
    }
  }

  lemma SameRoomSameLobby(states: seq<State>, events: seq<Event>, firstRoom: Room, n: nat, i: nat, k: nat)
    requires IsHistory(states, events) && states[0] == Initial(firstRoom) && n < |states|
    requires i < |states[n].lobbies| && k < |states[n].lobbies|
    requires states[n].lobbies[i].room == states[n].lobbies[k].room
    ensures i == k
  {
    HistoryKeepsRooms(states, events, firstRoom, n, n);
  }

  lemma RoomsAreOld(states: seq<State>, events: seq<Event>, firstRoom: Room, m: nat, n: nat, i: nat)
    requires IsHistory(states, events) && states[0] == Initial(firstRoom) && m <= n <= |events|
    requires i < |states[m].lobbies|
    ensures states[m].lobbies[i].room < states[n].nextRoom
  {
    HistoryKeepsRooms(states, events, firstRoom, m, m);
    HistoryKeepsRooms(states, events, firstRoom, m, n);
  }

  lemma HistoryStepKeepsHost(states: seq<State>, events: seq<Event>, n: nat, k: nat) returns (j: nat)
    requires IsHistory(states, events) && n < |events|
    requires k < |states[n + 1].lobbies| && states[n + 1].lobbies[k].room < states[n].nextRoom
    ensures j < |states[n].lobbies| && states[n].lobbies[j].room == states[n + 1].lobbies[k].room
    ensures states[n].lobbies[j].inGame ==>
      states[n + 1].lobbies[k].inGame && states[n + 1].lobbies[k].host == states[n].lobbies[j].host
  {
    assert NextAt(states, events, n);
    j := StepRooms(states[n], events[n], k);
  }

  // ----- One entity for each membership -----

  predicate Playing(s: State, c: Client, room: Room) {
    exists i :: 0 <= i < |s.lobbies| && s.lobbies[i].room == room && s.lobbies[i].inGame && c in s.lobbies[i].players
  }

  /** If a game runs in the room, the dedicated server hosts it. */
  predicate Dedicated(s: State, room: Room) {
    forall i :: 0 <= i < |s.lobbies| && s.lobbies[i].room == room && s.lobbies[i].inGame ==> s.lobbies[i].host.None?
  }

  /** The client starts a game in the room that it is not in, and names a host. */
  predicate StartsLateWithHost(s: State, e: Event, c: Client, room: Room) {
    && e.Start? && e.c == c && e.host.Some?
    && e.id < |s.lobbies| && s.lobbies[e.id].room == room && c !in s.lobbies[e.id].players
  }

  /** A client that starts a game it is not in, from outside, names no host. */
  predicate LateStartersNameNoHost(s: State, e: Event) {
    e.Start? && e.id < |s.lobbies| && e.c !in s.lobbies[e.id].players ==> e.host.None?
  }

  function Entered(s: State, s': State, c: Client, room: Room): nat {
    if Playing(s', c, room) && !Playing(s, c, room) then 1 else 0
  }

  function Spawns(s: State, c: Client, room: Room): nat {
    multiset(s.spawned)[Spawn(c, room)]
  }

  lemma {:induction false} SpawnAllOnce(players: seq<Client>, room: Room, connected: set<Client>, c: Client,
                                        room': Room)
    requires Distinct(players) && forall d :: d in players ==> d in connected
    ensures multiset(SpawnAll(players, room, connected))[Spawn(c, room')]
         == if c in players && room == room' then 1 else 0
  {
    if players != [] {
      var n := |players| - 1;
      assert players == players[..n] + [players[n]];
      SpawnAllOnce(players[..n], room, connected, c, room');
    }
  }

  lemma PlayingAt(s: State, i: nat, c: Client)
    requires DistinctRooms(s.lobbies, s.nextRoom) && i < |s.lobbies|
    ensures Playing(s, c, s.lobbies[i].room) <==> s.lobbies[i].inGame && c in s.lobbies[i].players
  {
  }

  lemma JoinSpawns(s: State, c0: Client, id: nat, c: Client, room: Room)
    requires Inv(s) && id < |s.lobbies| && !InSome(s.lobbies, c0)
    ensures Spawns(Joined(s, c0, id), c, room) == Spawns(s, c, room) + Entered(s, Joined(s, c0, id), c, room)
  {
    var s' := Joined(s, c0, id);
    var l := s.lobbies[id];
    if l.room == room {
      JoinKeepsRooms(s, c0, id);
      PlayingAt(s, id, c);
      PlayingAt(s', id, c);
    } else {
      OthersPlayOn(s, s', id, c, room);
    }
  }

  /** Lobbies with other rooms are as they were, but for a new one that is not in game. */
  lemma OthersPlayOn(s: State, s': State, id: nat, c: Client, room: Room)
    requires id < |s.lobbies| <= |s'.lobbies| && s.lobbies[id].room != room && s'.lobbies[id].room != room
    requires forall i :: 0 <= i < |s.lobbies| && i != id ==> s'.lobbies[i] == s.lobbies[i]
    requires forall i :: |s.lobbies| <= i < |s'.lobbies| ==> !s'.lobbies[i].inGame
    ensures Playing(s', c, room) <==> Playing(s, c, room)
  {
    if Playing(s, c, room) {
      var i :| 0 <= i < |s.lobbies| && s.lobbies[i].room == room && s.lobbies[i].inGame && c in s.lobbies[i].players;
      assert s'.lobbies[i] == s.lobbies[i];
    }
  }

  lemma RemoveSpawns(s: State, s': State, c0: Client, c: Client, room: Room)
    requires Members(s.lobbies) && s'.lobbies == RemoveClient(s.lobbies, c0)
    ensures Entered(s, s', c, room) == 0
  {
    if Playing(s', c, room) {
      var k :| 0 <= k < |s'.lobbies| && s'.lobbies[k].room == room && s'.lobbies[k].inGame
        && c in s'.lobbies[k].players;
      var i := RemovedFrom(s.lobbies, c0, k);
      assert s.lobbies[i].room == room && s.lobbies[i].inGame && c in s.lobbies[i].players;
    }
  }

  lemma StartElsewhere(s: State, c0: Client, id: nat, host: Option<Client>, c: Client, room: Room)
    requires id < |s.lobbies| && s.lobbies[id].room != room
    ensures Playing(Started(s, c0, id, host), c, room) <==> Playing(s, c, room)
  {
    OthersPlayOn(s, Started(s, c0, id, host), id, c, room);
  }

  lemma StartKeepsRooms(s: State, c0: Client, id: nat, host: Option<Client>)
    requires id < |s.lobbies| && DistinctRooms(s.lobbies, s.nextRoom)
    ensures DistinctRooms(Started(s, c0, id, host).lobbies, Started(s, c0, id, host).nextRoom)
  {
  }

  /** Entering a game by a start that names a host gives no entity. */
  function MissedBy(s: State, e: Event, c: Client, room: Room): nat {
    if e.Start? && e.host.Some? then Entered(s, Next(s, e), c, room) else 0
  }

  /** The sender is in the lobby it starts. */
  lemma OwnStartSpawns(s: State, c0: Client, id: nat, host: Option<Client>, c: Client, room: Room)
    requires Inv(s) && MembersConnected(s) && id < |s.lobbies| && c0 in s.lobbies[id].players
    ensures Spawns(Started(s, c0, id, host), c, room)
         == Spawns(s, c, room) + if host.Some? then 0 else Entered(s, Started(s, c0, id, host), c, room)
  {
    var s' := Started(s, c0, id, host);
    var l := s.lobbies[id];
    SpawnAllOnce(l.players, l.room, s.connected, c, room);
    if l.room == room {
      StartKeepsRooms(s, c0, id, host);
      PlayingAt(s, id, c);
      PlayingAt(s', id, c);
    } else {
      StartElsewhere(s, c0, id, host, c, room);
    }
  }

  /** The sender joins a game from outside. */
  lemma LateStartSpawns(s: State, c0: Client, id: nat, host: Option<Client>, c: Client, room: Room)
    requires Inv(s) && id < |s.lobbies| && s.lobbies[id].inGame && !InSome(s.lobbies, c0)
    ensures Spawns(Started(s, c0, id, host), c, room)
         == Spawns(s, c, room) + if host.Some? then 0 else Entered(s, Started(s, c0, id, host), c, room)
  {
    var s' := Started(s, c0, id, host);
    var l := s.lobbies[id];
    assert c0 !in l.players;
    if l.room == room {
      StartKeepsRooms(s, c0, id, host);
      PlayingAt(s, id, c);
      PlayingAt(s', id, c);
    } else {
      StartElsewhere(s, c0, id, host, c, room);
    }
  }

  lemma StepSpawns(s: State, e: Event, c: Client, room: Room)
    requires Inv(s) && MembersConnected(s) && Disciplined(s, e)
    ensures Spawns(Next(s, e), c, room) + MissedBy(s, e, c, room)
         == Spawns(s, c, room) + Entered(s, Next(s, e), c, room)
  {
    match e
    case Connect(_) => assert Playing(Next(s, e), c, room) <==> Playing(s, c, room);
    case Join(c0, id) => JoinSpawns(s, c0, id, c, room);
    case Exit(c0) => RemoveSpawns(s, Next(s, e), c0, c, room);
    case Start(c0, id, host) =>
      if c0 in s.lobbies[id].players {
        OwnStartSpawns(s, c0, id, host, c, room);
      } else {
        LateStartSpawns(s, c0, id, host, c, room);
      }
    case Disconnect(c0) => RemoveSpawns(s, Next(s, e), c0, c, room);
  }

  /** How often the client entered the game in the room, joining it or being there when it started, up to state `n`. */
  function Entries(states: seq<State>, n: nat, c: Client, room: Room): nat
    requires n < |states|
  {
    if n == 0 then 0 else Entries(states, n - 1, c, room) + Entered(states[n - 1], states[n], c, room)
  }

  /** How often it did so by a start that names a host. */
  function Missed(states: seq<State>, events: seq<Event>, n: nat, c: Client, room: Room): nat
    requires n <= |events| < |states|
  {
    if n == 0 then 0 else Missed(states, events, n - 1, c, room) + MissedBy(states[n - 1], events[n - 1], c, room)
  }

  lemma RunStepSpawns(states: seq<State>, events: seq<Event>, firstRoom: Room, n: nat, c: Client, room: Room)
    requires IsRun(states, events) && states[0] == Initial(firstRoom) && n < |events|
    ensures Spawns(states[n + 1], c, room) + MissedBy(states[n], events[n], c, room)
         == Spawns(states[n], c, room) + Entered(states[n], states[n + 1], c, room)
  {
    RunKeepsInv(states, events, firstRoom, n);
    assert StepsAt(states, events, n);
    StepSpawns(states[n], events[n], c, room);
  }

  /** The account of player entities: in every room of every run, under every interleaving of joins, starts, late and
      duplicate starts, exits and disconnections, a client has one entity for each time it entered the game, but for
      the times it entered by a start that named a host. */
  lemma {:induction false} EntitiesAreEntries(states: seq<State>, events: seq<Event>, firstRoom: Room, n: nat,
                                              c: Client, room: Room)
    requires IsRun(states, events) && states[0] == Initial(firstRoom) && n <= |events|
    ensures Spawns(states[n], c, room) + Missed(states, events, n, c, room) == Entries(states, n, c, room)
    decreases n
  {
    if n > 0 {
      EntitiesAreEntries(states, events, firstRoom, n - 1, c, room);
      RunStepSpawns(states, events, firstRoom, n - 1, c, room);
    }
  }

  /** In a game of the dedicated server, the only entries missed are late starts by the client itself. */
  lemma DedicatedMisses(s: State, e: Event, c: Client, room: Room)
    requires Inv(s) && Disciplined(s, e) && Dedicated(Next(s, e), room)
    ensures MissedBy(s, e, c, room) == if StartsLateWithHost(s, e, c, room) then 1 else 0
  {
    if e.Start? && e.host.Some? {
      var s' := Next(s, e);
      if s.lobbies[e.id].room == room {
        StartKeepsRooms(s, e.c, e.id, e.host);
        PlayingAt(s, e.id, c);
        PlayingAt(s', e.id, c);
        assert s'.lobbies[e.id].inGame && s'.lobbies[e.id].host.None?;
      } else {
        StartElsewhere(s, e.c, e.id, e.host, c, room);
      }
    }
  }

  lemma {:induction false} MissedNothingIff(states: seq<State>, events: seq<Event>, firstRoom: Room, n: nat, c: Client,
                                            room: Room)
    requires IsRun(states, events) && states[0] == Initial(firstRoom) && n <= |events|
    requires forall k :: 0 <= k <= n ==> Dedicated(states[k], room)
    ensures Missed(states, events, n, c, room) == 0 <==>
            forall k :: 0 <= k < n ==> !StartsLateWithHost(states[k], events[k], c, room)
    decreases n
  {
    if n > 0 {
      MissedNothingIff(states, events, firstRoom, n - 1, c, room);
      RunKeepsInv(states, events, firstRoom, n - 1);
      assert StepsAt(states, events, n - 1);
      DedicatedMisses(states[n - 1], events[n - 1], c, room);
    }
  }

  /** In a game hosted by the dedicated server a client has exactly one player entity for each time it entered, if and
      only if it has itself never started that game from outside naming a host; what others do, or what happens in
      other lobbies, makes no difference. */
  lemma OneEntityPerMembership(states: seq<State>, events: seq<Event>, firstRoom: Room, n: nat, c: Client, room: Room)
    requires IsRun(states, events) && states[0] == Initial(firstRoom) && n <= |events|
    requires forall k :: 0 <= k <= n ==> Dedicated(states[k], room)
    ensures Spawns(states[n], c, room) == Entries(states, n, c, room) <==>
            forall k :: 0 <= k < n ==> !StartsLateWithHost(states[k], events[k], c, room)
  {
    EntitiesAreEntries(states, events, firstRoom, n, c, room);
    MissedNothingIff(states, events, firstRoom, n, c, room);
  }

  /** Without the discipline the invariant fails: starting the empty lobby leaves none to join. */
  lemma StartingTheEmptyLobby(firstRoom: Room, c: Client)
    ensures !Inv(Started(Initial(firstRoom), c, 0, None))
  {
    var s := Initial(firstRoom);
    assert EmptyAt(s.lobbies, 0);
    StartKeepsInvIff(s, c, 0, None);
  }

  /** A late starter that names a host enters the game without an entity: naming none is exactly what is needed. */
  lemma LateStartSpawnsIff(s: State, c: Client, id: nat, host: Option<Client>)
    requires Inv(s) && id < |s.lobbies| && s.lobbies[id].inGame && !InSome(s.lobbies, c)
    ensures var s' := Started(s, c, id, host);
            var room := s.lobbies[id].room;
            && Entered(s, s', c, room) == 1
            && (Spawns(s', c, room) == Spawns(s, c, room) + 1 <==> host.None?)
  {
    var s' := Started(s, c, id, host);
    assert c !in s.lobbies[id].players;
    assert DistinctRooms(s'.lobbies, s'.nextRoom);
    PlayingAt(s, id, c);
    PlayingAt(s', id, c);
  }

  // ----- Rooms -----

  /** Every member of a lobby is in the room of that lobby, and so sees the entities spawned for it. */
  ghost predicate MembersInRoom(s: State) {
    forall i, c :: 0 <= i < |s.lobbies| && c in s.lobbies[i].players ==> c in s.rooms && s.rooms[c] == s.lobbies[i].room
  }

  ghost predicate IsMember(lobbies: seq<Lobby>, c: Client, room: Room) {
    exists i :: 0 <= i < |lobbies| && c in lobbies[i].players && lobbies[i].room == room
  }

  /** Nobody is in a room but the members of its lobby. */
  ghost predicate OnlyMembersInRooms(s: State) {
    forall c :: c in s.rooms ==> IsMember(s.lobbies, c, s.rooms[c])
  }

  lemma JoinKeepsMembersInRoom(s: State, c: Client, id: nat)
    requires MembersInRoom(s) && id < |s.lobbies| && !InSome(s.lobbies, c)
    ensures MembersInRoom(Joined(s, c, id))
  {
  }

  lemma StartKeepsMembersInRoom(s: State, c: Client, id: nat, host: Option<Client>)
    requires MembersInRoom(s) && id < |s.lobbies|
    requires c in s.lobbies[id].players || (!InSome(s.lobbies, c) && host.None?)
    ensures MembersInRoom(Started(s, c, id, host))
  {
    var s' := Started(s, c, id, host);
    forall i, d | 0 <= i < |s'.lobbies| && d in s'.lobbies[i].players
      ensures d in s'.rooms && s'.rooms[d] == s'.lobbies[i].room
    {
      assert s'.lobbies[i].room == s.lobbies[i].room;
      assert d in s.lobbies[i].players || (d == c && i == id);
    }
  }

  /** A start by a member, or by an outsider, keeps the members in their room exactly when an outsider names no host. */
  lemma StartKeepsMembersInRoomIff(s: State, c: Client, id: nat, host: Option<Client>)
    requires MembersInRoom(s) && OnlyMembersInRooms(s) && id < |s.lobbies|
    requires c in s.lobbies[id].players || !InSome(s.lobbies, c)
    ensures MembersInRoom(Started(s, c, id, host)) <==> c in s.lobbies[id].players || host.None?
  {
    if c in s.lobbies[id].players || host.None? {
      StartKeepsMembersInRoom(s, c, id, host);
    } else {
      var s' := Started(s, c, id, host);
      assert c !in s.rooms;
      assert s'.lobbies[id].players[|s.lobbies[id].players|] == c;
    }
  }

  lemma RemoveKeepsMembersInRoom(s: State, s': State, c: Client)
    requires Members(s.lobbies) && MembersInRoom(s)
    requires s'.lobbies == RemoveClient(s.lobbies, c) && s'.rooms == s.rooms - {c}
    ensures MembersInRoom(s')
  {
    forall k, d | 0 <= k < |s'.lobbies| && d in s'.lobbies[k].players
      ensures d in s'.rooms && s'.rooms[d] == s'.lobbies[k].room
    {
      var i := RemovedFrom(s.lobbies, c, k);
    }
  }

  /** A lobby that still has a player is not dropped. */
  lemma RemoveKeepsLobby(lobbies: seq<Lobby>, c: Client, i: nat, d: Client) returns (k: nat)
    requires Members(lobbies) && i < |lobbies| && d in lobbies[i].players && d != c
    ensures k < |RemoveClient(lobbies, c)| && RemoveClient(lobbies, c)[k] == Strip(lobbies[i], c)
    ensures d in RemoveClient(lobbies, c)[k].players
  {
    RemoveFirstMembers(lobbies[i].players, c);
    var emptied := LastEmptied(lobbies, c);
    k := if emptied.Some? && emptied.value < i then i - 1 else i;
    RemoveIsStrip(lobbies, c, k);
  }

  lemma RemoveKeepsOnlyMembersInRooms(s: State, s': State, c: Client)
    requires Members(s.lobbies) && OnlyMembersInRooms(s)
    requires s'.lobbies == RemoveClient(s.lobbies, c) && s'.rooms == s.rooms - {c}
    ensures OnlyMembersInRooms(s')
  {
    forall d | d in s'.rooms ensures IsMember(s'.lobbies, d, s'.rooms[d]) {
      assert IsMember(s.lobbies, d, s.rooms[d]);
      var i :| 0 <= i < |s.lobbies| && d in s.lobbies[i].players && s.lobbies[i].room == s.rooms[d];
      var k := RemoveKeepsLobby(s.lobbies, c, i, d);
    }
  }

  /** Nobody loses a lobby to a new member. */
  lemma PushKeepsOnlyMembersInRooms(s: State, s': State, c: Client, id: nat)
    requires OnlyMembersInRooms(s) && id < |s.lobbies| <= |s'.lobbies| && c in s'.lobbies[id].players
    requires forall i :: 0 <= i < |s.lobbies| ==> s'.lobbies[i].room == s.lobbies[i].room
    requires forall i, d :: 0 <= i < |s.lobbies| && d in s.lobbies[i].players ==> d in s'.lobbies[i].players
    requires s'.rooms == s.rooms || s'.rooms == s.rooms[c := s.lobbies[id].room]
    ensures OnlyMembersInRooms(s')
  {
    forall d | d in s'.rooms ensures IsMember(s'.lobbies, d, s'.rooms[d]) {
      if d in s.rooms && s'.rooms[d] == s.rooms[d] {
        assert IsMember(s.lobbies, d, s.rooms[d]);
        var i :| 0 <= i < |s.lobbies| && d in s.lobbies[i].players && s.lobbies[i].room == s.rooms[d];
        assert d in s'.lobbies[i].players;
      }
    }
  }

  lemma StepKeepsOnlyMembersInRooms(s: State, e: Event)
    requires Inv(s) && OnlyMembersInRooms(s) && Disciplined(s, e)
    ensures OnlyMembersInRooms(Next(s, e))
  {
    match e
    case Connect(c) => assert forall d :: d in s.rooms ==> IsMember(s.lobbies, d, s.rooms[d]);
    case Join(c, id) => PushKeepsOnlyMembersInRooms(s, Next(s, e), c, id);
    case Exit(c) => RemoveKeepsOnlyMembersInRooms(s, Next(s, e), c);
    case Start(c, id, host) => PushKeepsOnlyMembersInRooms(s, Next(s, e), c, id);
    case Disconnect(c) => RemoveKeepsOnlyMembersInRooms(s, Next(s, e), c);
  }

  /** Every disciplined step keeps the members in their rooms, except exactly that of a late starter naming a host. */
  lemma StepKeepsMembersInRoomIff(s: State, e: Event)
    requires Inv(s) && MembersInRoom(s) && OnlyMembersInRooms(s) && Disciplined(s, e)
    ensures MembersInRoom(Next(s, e)) <==> LateStartersNameNoHost(s, e)
  {
    match e
    case Connect(c) =>
    case Join(c, id) => JoinKeepsMembersInRoom(s, c, id);
    case Exit(c) => RemoveKeepsMembersInRoom(s, Next(s, e), c);
    case Start(c, id, host) => StartKeepsMembersInRoomIff(s, c, id, host);
    case Disconnect(c) => RemoveKeepsMembersInRoom(s, Next(s, e), c);
  }

  lemma {:induction false} RunKeepsOnlyMembersInRooms(states: seq<State>, events: seq<Event>, firstRoom: Room, n: nat)
    requires IsRun(states, events) && states[0] == Initial(firstRoom) && n <= |events|
    ensures OnlyMembersInRooms(states[n])
  {
    if n > 0 {
      RunKeepsOnlyMembersInRooms(states, events, firstRoom, n - 1);
      RunKeepsInv(states, events, firstRoom, n - 1);
      assert StepsAt(states, events, n - 1);
      StepKeepsOnlyMembersInRooms(states[n - 1], events[n - 1]);
    }
  }

  /** Over every run: nobody is in a room but the members of its lobby; and all members are in their rooms at every
      moment so far if and only if every late starter so far has named no host. */
  lemma {:induction false} RunKeepsMembersInRoomIff(states: seq<State>, events: seq<Event>, firstRoom: Room, n: nat)
    requires IsRun(states, events) && states[0] == Initial(firstRoom) && n <= |events|
    ensures OnlyMembersInRooms(states[n])
    ensures (forall k :: 0 <= k <= n ==> MembersInRoom(states[k])) <==>
            (forall k :: 0 <= k < n ==> LateStartersNameNoHost(states[k], events[k]))
  {
    RunKeepsOnlyMembersInRooms(states, events, firstRoom, n);
    if n > 0 {
      RunKeepsMembersInRoomIff(states, events, firstRoom, n - 1);
      if MembersInRoom(states[n - 1]) {
        RunStepKeepsMembersInRoomIff(states, events, firstRoom, n - 1);
      }
    }
  }

  lemma RunStepKeepsMembersInRoomIff(states: seq<State>, events: seq<Event>, firstRoom: Room, n: nat)
    requires IsRun(states, events) && states[0] == Initial(firstRoom) && n < |events| && MembersInRoom(states[n])
    ensures MembersInRoom(states[n + 1]) <==> LateStartersNameNoHost(states[n], events[n])
  {
    RunKeepsOnlyMembersInRooms(states, events, firstRoom, n);
    RunKeepsInv(states, events, firstRoom, n);
    assert StepsAt(states, events, n);
    StepKeepsMembersInRoomIff(states[n], events[n]);
  }
}
