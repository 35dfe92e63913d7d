/** The lobby server: joining, leaving, starting games, over a list of lobbies whose indices shift on removal. */
module Lobbies {
  import opened Options
  import opened Sequences

  type Client = nat

  type Room = nat

  datatype Lobby = Lobby(players: seq<Client>, host: Option<Client>, room: Room, inGame: bool)

  /** A player entity the server has spawned. */
  datatype Spawn = Spawn(client: Client, room: Room)

  /** `rooms` says which room each client's entity is in. */
  datatype State = State(
    lobbies: seq<Lobby>,
    nextRoom: Room,
    connected: set<Client>,
    rooms: map<Client, Room>,
    spawned: seq<Spawn>)

  function NewLobby(room: Room): Lobby {
    Lobby([], None, room, false)
  }

  predicate HasEmptyLobby(lobbies: seq<Lobby>) {
    exists i :: 0 <= i < |lobbies| && lobbies[i].players == []
  }

  // ----- Removing a client -----

  function RemoveFirst(players: seq<Client>, c: Client): seq<Client> {
    if players == [] then []
    else if players[0] == c then players[1..]
    else [players[0]] + RemoveFirst(players[1..], c)
  }

  function Strip(l: Lobby, c: Client): Lobby {
    l.(players := RemoveFirst(l.players, c))
  }

  function StripAll(lobbies: seq<Lobby>, c: Client): seq<Lobby> {
    seq(|lobbies|, i requires 0 <= i < |lobbies| => Strip(lobbies[i], c))
  }

  /** The first `n` lobbies have lost the client. */
  function StripFirst(lobbies: seq<Lobby>, c: Client, n: nat): seq<Lobby>
    requires n <= |lobbies|
  {
    StripAll(lobbies[..n], c) + lobbies[n..]
  }

  lemma StripNext(lobbies: seq<Lobby>, c: Client, n: nat)
    requires n < |lobbies|
    ensures StripFirst(lobbies, c, n)[n] == lobbies[n]
    ensures StripFirst(lobbies, c, n + 1) == StripFirst(lobbies, c, n)[n := Strip(lobbies[n], c)]
    ensures LastEmptied(lobbies[..n + 1], c) == if Empties(lobbies[n], c) then Some(n) else LastEmptied(lobbies[..n], c)
    ensures c !in lobbies[n].players ==> Strip(lobbies[n], c) == lobbies[n]
  {
    assert lobbies[..n + 1][..n] == lobbies[..n];
    if c !in lobbies[n].players {
      RemoveAbsent(lobbies[n].players, c);
    }
  }

  lemma StripLast(lobbies: seq<Lobby>, c: Client)
    ensures lobbies[..|lobbies|] == lobbies && StripFirst(lobbies, c, |lobbies|) == StripAll(lobbies, c)
  {
    assert lobbies[..|lobbies|] == lobbies;
  }

  predicate Empties(l: Lobby, c: Client) {
    c in l.players && Strip(l, c).players == []
  }

  /** The last lobby that loses its last player. */
  function LastEmptied(lobbies: seq<Lobby>, c: Client): (r: Option<nat>)
    ensures r.Some? ==> r.value < |lobbies| && Empties(lobbies[r.value], c)
    ensures r.Some? ==> forall i :: r.value < i < |lobbies| ==> !Empties(lobbies[i], c)
    ensures r.None? ==> forall i :: 0 <= i < |lobbies| ==> !Empties(lobbies[i], c)
  {
    if lobbies == [] then None
    else
      var n := |lobbies| - 1;
      if Empties(lobbies[n], c) then Some(n) else LastEmptied(lobbies[..n], c)
  }

  function RemoveClient(lobbies: seq<Lobby>, c: Client): seq<Lobby> {
    match LastEmptied(lobbies, c)
    case None => StripAll(lobbies, c)
    case Some(i) => DropAt(StripAll(lobbies, c), i)
  }

  // ----- The messages -----

  function Opened(lobbies: seq<Lobby>, room: Room): seq<Lobby> {
    if HasEmptyLobby(lobbies) then lobbies else lobbies + [NewLobby(room)]
  }

  function Pushed(lobbies: seq<Lobby>, id: nat, c: Client): seq<Lobby>
    requires id < |lobbies|
  {
    lobbies[id := lobbies[id].(players := lobbies[id].players + [c])]
  }

  function Joined(s: State, c: Client, id: nat): State
    requires id < |s.lobbies|
  {
    var l := s.lobbies[id];
    var lobbies := Pushed(s.lobbies, id, c);
    s.(lobbies := Opened(lobbies, s.nextRoom),
       nextRoom := if HasEmptyLobby(lobbies) then s.nextRoom else s.nextRoom + 1,
       rooms := s.rooms[c := l.room],
       spawned := if l.inGame then s.spawned + [Spawn(c, l.room)] else s.spawned)
  }

  function Exited(s: State, c: Client): State {
    s.(lobbies := RemoveClient(s.lobbies, c), rooms := s.rooms - {c})
  }

  /** The client's entity is despawned, and its room goes with it. */
  function Disconnected(s: State, c: Client): State {
    s.(lobbies := RemoveClient(s.lobbies, c), connected := s.connected - {c}, rooms := s.rooms - {c})
  }

  /** An entity for every player that is connected. */
  function SpawnAll(players: seq<Client>, room: Room, connected: set<Client>): seq<Spawn> {
    if players == [] then []
    else
      var n := |players| - 1;
      SpawnAll(players[..n], room, connected) + if players[n] in connected then [Spawn(players[n], room)] else []
  }

  /** A game takes its host from the message that starts it. */
  function InGame(l: Lobby, host: Option<Client>): Lobby {
    if l.inGame then l else l.(inGame := true, host := host)
  }

  function Started(s: State, c: Client, id: nat, host: Option<Client>): State
    requires id < |s.lobbies|
  {
    var l := s.lobbies[id];
    var lobbies := s.lobbies[id := InGame(l, host)];
    if c !in l.players then
      s.(lobbies := Pushed(lobbies, id, c),
         rooms := if host.None? then s.rooms[c := l.room] else s.rooms,
         spawned := if host.None? then s.spawned + [Spawn(c, l.room)] else s.spawned)
    else if l.inGame then s.(lobbies := lobbies)
    else s.(lobbies := lobbies,
            spawned := if host.None? then s.spawned + SpawnAll(l.players, l.room, s.connected) else s.spawned)
  }

  // ----- The server -----

  class LobbyServer {
    var lobbies: seq<Lobby>
    var nextRoom: Room
    var connected: set<Client>
    var rooms: map<Client, Room>
    var spawned: seq<Spawn>

    function Now(): State
      reads this
    {
      State(lobbies, nextRoom, connected, rooms, spawned)
    }

    /** `start_dedicated_server`: one empty lobby. */
    constructor (firstRoom: Room)
      ensures Now() == Initial(firstRoom)
    {
      lobbies, nextRoom := [NewLobby(firstRoom)], firstRoom + 1;
      connected, rooms, spawned := {}, map[], [];
    }

    method RemoveFromLobbies(c: Client)
      modifies this`lobbies
      ensures lobbies == RemoveClient(old(lobbies), c)
    {
      var removed: Option<nat> := None;
      ghost var before := lobbies;
      for i := 0 to |lobbies|
        invariant lobbies == StripFirst(before, c, i) && removed == LastEmptied(before[..i], c)
      {
        StripNext(before, c, i);
        var players := lobbies[i].players;
        if c in players {
          lobbies := lobbies[i := lobbies[i].(players := RemoveFirst(players, c))];
          if lobbies[i].players == [] {
            removed := Some(i);
          }
        }
      }
      StripLast(before, c);
      if removed.Some? {
        lobbies := lobbies[..removed.value] + lobbies[removed.value + 1..];
      }
    }

    /** `false` is the panic on a lobby that does not exist. */
    method HandleJoin(c: Client, id: nat) returns (ok: bool)
      modifies this
      ensures ok == (id < |old(lobbies)|)
      ensures Now() == if ok then Joined(old(Now()), c, id) else old(Now())
    {
      if id >= |lobbies| {
        return false;
      }
      var room := lobbies[id].room;
      var inGame := lobbies[id].inGame;
      lobbies := lobbies[id := lobbies[id].(players := lobbies[id].players + [c])];
      rooms := rooms[c := room];
      if inGame {
        spawned := spawned + [Spawn(c, room)];
      }
      if !HasEmptyLobby(lobbies) {
        lobbies := lobbies + [NewLobby(nextRoom)];
        nextRoom := nextRoom + 1;
      }
      return true;
    }

    method HandleExit(c: Client)
      modifies this
      ensures Now() == Exited(old(Now()), c)
    {
      rooms := rooms - {c};
      RemoveFromLobbies(c);
    }

    method HandleDisconnection(c: Client)
      modifies this
      ensures Now() == Disconnected(old(Now()), c)
    {
      RemoveFromLobbies(c);
      connected, rooms := connected - {c}, rooms - {c};
    }

    method HandleStart(c: Client, id: nat, host: Option<Client>) returns (ok: bool)
      modifies this
      ensures ok == (id < |old(lobbies)|)
      ensures Now() == if ok then Started(old(Now()), c, id, host) else old(Now())
    {
      if id >= |lobbies| {
        return false;
      }
      var l := lobbies[id];
      var wasInGame := l.inGame;
      if !l.inGame {
        l := l.(inGame := true, host := host);
        lobbies := lobbies[id := l];
      }
      assert lobbies == old(lobbies)[id := l];
      if c !in l.players {
        lobbies := lobbies[id := l.(players := l.players + [c])];
        if host.None? {
          spawned := spawned + [Spawn(c, l.room)];
          rooms := rooms[c := l.room];
        }
      } else if !wasInGame && host.None? {
        SpawnPlayers(l.players, l.room);
      }
      return true;
    }

    method SpawnPlayers(players: seq<Client>, room: Room)
      modifies this`spawned
      ensures spawned == old(spawned) + SpawnAll(players, room, connected)
    {
      for n := 0 to |players|
        invariant spawned == old(spawned) + SpawnAll(players[..n], room, connected)
      {
        assert players[..n + 1][..n] == players[..n];
        if players[n] in connected {
          spawned := spawned + [Spawn(players[n], room)];
        }
      }
      assert players[..|players|] == players;
    }
  }

  function Initial(firstRoom: Room): State {
    State([NewLobby(firstRoom)], firstRoom + 1, {}, map[], [])
  }

  lemma {:induction false} RemoveAbsent(players: seq<Client>, c: Client)
    requires c !in players
    ensures RemoveFirst(players, c) == players
  {
    if players != [] {
      RemoveAbsent(players[1..], c);
    }
  }
}
