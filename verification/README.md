# Lightyear examples and demos: a verified model

Lightyear is a networking library for Bevy. Its examples and demos are small networked games: server, clients or peers
simulate the same rules, and replicate, predict, roll back or interpolate what they cannot see. This project models the
rules that are hardest to get right and proves what they promise, for all inputs and all runs.

`dafny verify dfyconfig.toml` checks everything.

- **Snake** (`examples/replication_groups`). A tail of inflection points follows a head. `SnakeGeometry` (on `Vectors`) has
  directions and axis-aligned segments; `SnakeChain` the tail as a curve (`At` is the point at an arc length behind the
  head); `SnakeTail` the in-place cut; `SnakeRun` movement, tail update and the reversal filter over whole runs;
  `SnakeInterpolation` the walk between two snapshots; `SnakeJourney` how the newer snapshot holds the older head and
  where the search finds it; `SnakeExactness` the proof that the walk shows exactly the snake that has travelled that
  share of the way; `SnakeReturns` that it fails for every run that comes back through the older head or is too long.
- **Spaceships** (`demos/spaceships`). `SpaceshipsFiring` decides who fires and in which order; `SpaceshipsP2P` (on
  `Replays`) proves that peers agree and that replay equals an undisturbed run; `SpaceshipsServer` has a tick of the
  server and `SpaceshipsSessions` its runs, with players who come and go: how far apart shots are and how many bullets
  live; `SpaceshipsHash` (on `Bits`) inverts the prespawn hash; `SpaceshipsCollisions` (on `Sequences`) covers contacts
  and scores.
- **Projectiles** (`demos/projectiles`). `ProjectileActions`: replicated pieces of players and actions arrive in any order.
- **Lobby** (`examples/lobby`). `Lobbies` has the server and its messages, `LobbyRuns` what every run keeps.
- **Trail** (`examples/delta_compression`) and **FpsHash** (`examples/fps`).

## How the model reads the code

- `f32` is `real`; `1000.0 * f32::EPSILON` and `f32::EPSILON` stay as named constants. `segment_length` is modelled as the
  sum of the coordinate distances, which is the Euclidean length exactly on axis-aligned segments
  (`SegmentLengthIsEuclidean`); no other segment occurs in a run (`EveryKeyPatternIsSafe`).
- `is_between` is total: `0.0 / 0.0` and `unreachable!` are results of their own, and so is what `interpolate` makes of
  them (`Outcome`): a panic, or a head that is not a number. An `unwrap` that can fail is a result too (`Panicked`,
  `None`, `ok == false`).
- A disconnected player's ship is despawned with the client that controls it
  (`crates/replication/replication/src/control.rs`), and a client entity goes with its connection
  (`crates/connection/netcode/src/server_plugin.rs`); whoever connects again starts afresh.
- Ticks are `u32` and their difference saturates to an `i32`, as in `crates/core/core/src/tick.rs`; the absolute value of
  the smallest `i32` is itself, as in a build without overflow checks.
- Deferred `Commands` take effect at the end of the system that issues them. Queries are maps or sequences; the order an
  archetype query yields is an arbitrary parameter.
- Replication, input buffers, confirmed histories, contacts and room ids are inputs: any arrival order, any buffer content,
  any contact list.

## Results that are not plain yes

- Interpolation is exact unless its cut-off stops it (`InterpolationIsExact` is an equivalence, `CutoffExample` a reachable
  failing input): when the older head is not on the first segment of the newer tail, and the head has gone past the older
  head, or past a corner other than the newest, by less than the cut-off, the walk returns without cutting the tail.
- Leaving the cut-off aside, it is exact at every ratio if and only if the run is no longer than the tail and does not
  lead through the older head again (`AlwaysExactIff`): the search takes the place nearest to the newer head
  (`SearchFindsNearest`), so the head moves too slowly, or, once the older head has dropped off the newer tail, not at
  all. `LoopExample` is a legal run of four moves that is shown standing still.
- On the server the cooldown does not survive a reconnection, which brings a new weapon (`ReconnectResetsCooldown`). No two
  bullets ever share owner and tick all the same (`BulletsAreUnique`), which is what the hash needs (`HashesAreUnique`).
  Shots stay spaced whatever is pressed if and only if whoever comes back has been away for longer than the cooldown
  (`SpacedIffRested` for a tick, `AlwaysSpacedIffRested` for whole runs, with what the first cooldown and ticks from 2^31
  on change); the bound of ten live bullets follows then (`RestedRunIsBounded`). In general the bound is 129, and
  every number up to it is reached (`EveryCountIsReached`).
- The fps hash identifies the shots of players whose products do not wrap, 18446688733644 of them, if and only if ticks
  stay below 2^19, and with ticks of 19 bits it does so for no more players (`IdentifiesIff`); `HashCollides` has the
  failing inputs just above both bounds.
- Whether a contact is reported as "A with B" or "B with A" can matter on a client (`ClientFlipExample`), exactly when one
  side ends the contact early and the other is despawned (`FlipIsHarmlessIff`); the order of contacts never matters.
- An action that changes its owner follows the new one, but keeps the binding or mock it got from a controlled player
  (`RaceIsWon`); the order of arrivals only matters through who was the last owner and whether it was ever active
  (`RunSettles`, `LastOwnerDecides`).
- The tail keeps its length in a run exactly when no input reverses the direction taken last (`WholeIffNoReversal`). The
  client's filter guarantees that for what it sends, not for what arrives: losing one of two accepted inputs lets a
  reversal through (`LostInputBreaksTail`).
- The spaceships hash is injective for owners of 32 bits, and for a single owner or a single tick; for all owners its
  collisions are characterised exactly (`CollisionsExactly`), and they exist (`WideOwnersCollide`).
- The sum of the scores is kept while the owners of the bullets are present; in general it changes by exactly the known
  shooters less the known victims (`TotalAfter`).
- The lobby invariant is kept by a join or a start under exactly the conditions of `JoinKeepsInvIff` and
  `StartKeepsInvIff`, and so over any history (`HistoryKeepsInvIff`); starting the empty lobby breaks it
  (`StartingTheEmptyLobby`). A late starter that names a host gets no entity (`LateStartSpawnsIff`): entities and entries
  differ by exactly the starts that name a host (`EntitiesAreEntries`). Nor is it put into the room of its lobby: members
  are in their rooms throughout a run if and only if no late starter names a host (`RunKeepsMembersInRoomIff`).

## Model

| member | source | states |
|---|---|---|
| SnakeGeometry.SegmentLengthIsEuclidean | examples/replication_groups/src/protocol.rs:101-103 | the modelled length is non-negative and equals the Euclidean length exactly on axis-aligned segments |
| SnakeGeometry.FromPointsInvertsGetTail | examples/replication_groups/src/protocol.rs:186-214 | going back along a direction and asking for the direction gives it again exactly for positive lengths |
| SnakeGeometry.FromPointsIff | examples/replication_groups/src/protocol.rs:186-205 | there is a direction between two points exactly if the first lies straight behind the second along it |
| SnakeGeometry.OppositeIff | examples/replication_groups/src/protocol.rs:175-183 | directions are opposite exactly if going back along both leads nowhere |
| SnakeGeometry.IsBetweenFinds | examples/replication_groups/src/protocol.rs:51-88 | every point of a proper segment is found, its ratio is the share of the segment covered, and it is zero exactly at the far end |
| SnakeGeometry.IsBetweenOnlyFinds | examples/replication_groups/src/protocol.rs:51-88 | nothing but points of the segment is found, and a proper segment never divides by zero or panics |
| SnakeGeometry.IsBetweenCases | examples/replication_groups/src/protocol.rs:51-88 | for any three points, exactly when it finds, misses, divides zero by zero and panics |
| SnakeTail.TailPoints.ShortenBack | examples/replication_groups/src/protocol.rs:106-142 | the loop computes the cut of the old points, for every head in line with the first point and every length |
| SnakeTail.ShortenTakesPrefix | examples/replication_groups/src/protocol.rs:104-142 | the cut is the first units of the polyline: exactly the length asked for, or all of a shorter chain, the same curve point by point, labels consistent |
| SnakeTail.ShortenKeepsPoints | examples/replication_groups/src/protocol.rs:119-141 | the cut keeps the points but for the last one kept, whose label stays, adds none, and keeps none further back than the length |
| SnakeTail.ShortenIdempotent | examples/replication_groups/src/protocol.rs:104-142 | cutting twice is cutting once |
| SnakeRun.SharedTailBehaviour | examples/replication_groups/src/shared.rs:32-84 | a tail whose parent has made a move that is no reversal is that snake led through its old head to the new one, whole and labelled; one whose parent did not move stays; the system stops where the code would panic, never at such a move |
| SnakeRun.MoveTracesHead | examples/replication_groups/src/shared.rs:17-84 | after one accepted move every point of the tail is where head or tail was one move earlier, length and spacing kept |
| SnakeRun.HeadAfterMoves | examples/replication_groups/src/shared.rs:17-28 | over every run the head is ten units further for each move, on the axis and to the side of its direction |
| SnakeRun.ReversalBreaksTail | examples/replication_groups/src/shared.rs:62-76 | a reversal panics exactly when the first segment is at most a move long, and otherwise leaves the snake a move too short |
| SnakeRun.PathBehindIsHistory | examples/replication_groups/src/shared.rs:17-28 | the reference path is the history of the head: at the distance travelled since a tick it is the head of that tick |
| SnakeRun.TailTracesHead | examples/replication_groups/src/shared.rs:17-84 | in every run without reversal from any snake: no panic, length exact, front label the last direction, and the curve is the head's own path |
| SnakeRun.WholeIffNoReversal | examples/replication_groups/src/shared.rs:17-84 | the snake is whole at every tick of a run if and only if the run holds no reversal |
| SnakeRun.SpacedIsSparse | examples/replication_groups/src/shared.rs:61-82 | with all segments but the last at least a move long, the number of points less one is below the length over the move |
| SnakeRun.SpawnedTailTracesHead | examples/replication_groups/src/server.rs:49-81 | from the spawn state: length always 300, the curve is the head's path prolonged straight down, never more than 30 points |
| SnakeRun.InputSystem.BufferInput | examples/replication_groups/src/client.rs:36-69 | the action sent and the direction remembered for every set of pressed keys |
| SnakeRun.FilterIsSound | examples/replication_groups/src/client.rs:42-67 | whatever keys are pressed over a run, no reversal is sent |
| SnakeRun.FilterDropsOnlyReversals | examples/replication_groups/src/client.rs:42-67 | over every run, a request is sent exactly if it does not reverse the direction sent last |
| SnakeRun.KeyMovesHead | examples/replication_groups/src/client.rs:42-67 | which way each key leads, pressed alone, and when it does not |
| SnakeRun.KeyPriority | examples/replication_groups/src/client.rs:42-53 | which of several keys counts |
| SnakeRun.EveryKeyPatternIsSafe | examples/replication_groups/src/client.rs:42-67 | for every key pattern the tail update never panics, the front label is the direction accepted last, the first segment is a move or longer, no segment is diagonal |
| SnakeRun.LostInputBreaksTail | examples/replication_groups/src/server.rs:88-100 | an accepted run with one input lost contains a reversal, and the server's snake shrinks |
| SnakeInterpolation.FindOldHead | examples/replication_groups/src/client.rs:298-323 | the first loop finds the segment, the distance and whether the old head is on a point, for any newer tail; a segment without length or a diagonal one is reported as such |
| SnakeInterpolation.WalkAlong | examples/replication_groups/src/client.rs:325-376 | the second loop moves the head along the newer tail, marking the points it passes |
| SnakeInterpolation.InterpolatePair | examples/replication_groups/src/client.rs:253-376 | for any two snapshots one iteration overwrites tail and head with the interpolated snake, or ends in a panic or with a head that is not a number |
| SnakeInterpolation.OutcomeCases | examples/replication_groups/src/client.rs:274-323 | for any two snapshots, exactly when it panics and when the head is not a number |
| SnakeInterpolation.WindowBrackets | examples/replication_groups/src/client.rs:156-187 | a pair is returned if and only if two neighbouring present entries bracket the tick, and it is those two; its ratio lies in [0,1] without clamping |
| SnakeInterpolation.PresentIff | examples/replication_groups/src/client.rs:221-246 | a value is present exactly if the last entry at or before the tick is, and then it is that one |
| SnakeInterpolation.FractionAdvances | crates/replication/interpolation/src/interpolate.rs:30-32 | the ratio times the ticks between the snapshots is the ticks passed and the overstep; nothing at the start, all at the end |
| SnakeInterpolation.ShownWithoutPair | examples/replication_groups/src/client.rs:213-237 | without a tail in force nothing changes; with nothing present after it, it is shown as confirmed with the head of its tick |
| SnakeInterpolation.InterpolateEntity | examples/replication_groups/src/client.rs:211-377 | one tail and head of the system, with missing histories, single and paired windows |
| SnakeJourney.RunFollows | examples/replication_groups/src/shared.rs:17-84 | after a run no longer than the tail the newer tail still holds the older head, the distance travelled behind its own, on a segment that leads into the older tail |
| SnakeJourney.LocateIsNearest | examples/replication_groups/src/client.rs:298-323 | for any older head and newer snake: the loop finds the place nearest to the newer head, its segment, distance and whether it is a point, or that there is none |
| SnakeJourney.SearchFindsNearest | examples/replication_groups/src/client.rs:274-323 | the same for the whole search, and that for every ratio the result starts from that place |
| SnakeExactness.StraightExact | examples/replication_groups/src/client.rs:277-295 | on a straight way the result is exact for every ratio |
| SnakeExactness.WalkIsExact | examples/replication_groups/src/client.rs:325-376 | from every state of the walk the outcome is exact if and only if the cut-off does not stop it |
| SnakeExactness.JourneyIsExact | examples/replication_groups/src/client.rs:253-376 | for any two snapshots so related and without return, exact if and only if not stopped by the cut-off (`SnakeReturns.AlwaysExactIff` shows that the condition is needed) |
| SnakeExactness.JourneyStopsShort | examples/replication_groups/src/client.rs:336-340 | stopped by the cut-off, the result is the snake of less than the cut-off before, longer by as much as it has moved |
| SnakeExactness.InterpolationIsExact | examples/replication_groups/src/client.rs:253-377 | for any run without reversal, no longer than the tail and not through the older head again, and every ratio: the result is the snake of that run after that share of the way, if and only if the cut-off does not stop it |
| SnakeExactness.ShownIsExact | examples/replication_groups/src/client.rs:189-377 | the same from the confirmed histories, tick and overstep: what is shown has gone the share of the way that tick and overstep are of the time between the snapshots |
| SnakeExactness.CutoffExample | examples/replication_groups/src/client.rs:336-340 | a reachable pair of snapshots with a ratio just below the cut-off for which the result is wrong and one just above for which it is right |
| SnakeReturns.FirstMoveIsNotStopped | examples/replication_groups/src/client.rs:336-340 | in every run the cut-off stops nothing between its own length and the end of the first move |
| SnakeReturns.HeadLagsBehind | examples/replication_groups/src/client.rs:277-376 | whenever the search finds the older head nearer than it is, the head is wrong all along the first move |
| SnakeReturns.LostHeadIsPut | examples/replication_groups/src/client.rs:367-376 | with the older head nowhere on the newer tail, where the head is put and what becomes of the tail, whatever the ratio |
| SnakeReturns.AlwaysExactIff | examples/replication_groups/src/client.rs:253-377 | for every run without reversal: exact at every ratio not stopped by the cut-off, if and only if the run is no longer than the tail and does not pass the older head again |
| SnakeReturns.ClosedRunStandsStill | examples/replication_groups/src/client.rs:277-295 | after any run that ends where it began the shown head stands still at every ratio |
| SnakeReturns.LoopExample | examples/replication_groups/src/client.rs:277-295 | right, up, left, down from the spawn state is such a run |
| SpaceshipsFiring.EffectiveLastFireTick | demos/spaceships/src/shared.rs:460-472 | the later of the local and the confirmed fire tick |
| SpaceshipsFiring.Sort | demos/spaceships/src/shared.rs:304-306 | the ids in increasing order, none lost |
| SpaceshipsFiring.FiringSystem.FireOne | demos/spaceships/src/shared.rs:308-352 | one player fires if allowed and cooled down, and only its weapon changes |
| SpaceshipsFiring.FiringSystem.SharedPlayerFiring | demos/spaceships/src/shared.rs:259-419 | every player is updated on its own and each shooter gives one shot by increasing id, in whatever order the query yields them |
| SpaceshipsFiring.ShotsInOrderAreUnique | demos/spaceships/src/shared.rs:286-306 | the sequence of shots of a tick does not depend on the order the players were found in |
| SpaceshipsFiring.ServerFiresExactly | demos/spaceships/src/shared.rs:308-350 | on a dedicated or host server, exactly when Fire is held by a controlled player whose weapon has cooled down |
| SpaceshipsFiring.ClientFiresExactly | demos/spaceships/src/shared.rs:316-350 | on a conventional client, exactly for a predicted or deterministic player with Fire held and sampled, input arrived, a weapon cooled down since the later of local and confirmed shot and, for its own predicted player, fired before |
| SpaceshipsFiring.P2PFiresExactly | demos/spaceships/src/shared.rs:325-350 | in P2P, exactly when this tick and the one before are sampled, Fire is down, remote input has arrived and the weapon has cooled down |
| SpaceshipsFiring.OwnTick | demos/spaceships/src/shared.rs:316-352 | each tick of a client run: what its own weapon is after it, from input, rollback and confirmation |
| SpaceshipsFiring.NoUnconfirmedFirstShot | demos/spaceships/src/shared.rs:430-444 | over every run of a conventional client, its own player predicts no shot until the server has sent back a weapon that has fired |
| SpaceshipsP2P.StepIsFiring | demos/spaceships/src/shared.rs:285-352 | the step of a peer's run is what the firing system computes, for every query order |
| SpaceshipsP2P.StepExactly | demos/spaceships/src/shared.rs:325-352 | each tick of a peer's run: exactly the players with Fire held, sampled and received and a weapon cooled down fire, once, and have fired at this tick |
| SpaceshipsP2P.PeersAgree | demos/spaceships/src/shared.rs:285-352 | peers with the same inputs, remote ones received, compute the same weapons and ordered shots at every tick, whoever is local |
| SpaceshipsP2P.ReplayEqualsRun | demos/spaceships/src/shared.rs:363-367 | rolling back and replaying corrected inputs gives the weapons and shots of a peer that always had them |
| SpaceshipsServer.BulletWorld.LifetimeDespawner | demos/spaceships/src/shared.rs:635-655 | the loop despawns exactly the expired bullets this application may despawn |
| SpaceshipsServer.UnexpiredExactly | demos/spaceships/src/shared.rs:635-655 | in every application, exactly the bullets not older than their lifetime, or that it may not despawn, are left, as often as they were there |
| SpaceshipsServer.KeepIsDespawner | demos/spaceships/src/shared.rs:635-655 | what a server run keeps of bullets nobody hit is what the despawner leaves |
| SpaceshipsServer.WeaponsAreFired | demos/spaceships/src/shared.rs:334-352 | the weapons of a server tick are those the firing system leaves |
| SpaceshipsServer.ServerFiresIff | demos/spaceships/src/shared.rs:334-350 | a weapon fires exactly when Fire is held and more than the cooldown, but less than 2^31 ticks, have passed, for all u32 ticks |
| SpaceshipsServer.DemoTiming | demos/spaceships/src/shared.rs:374-377 | with the demo values a held weapon fires every 13 ticks and a bullet lives for 128 |
| SpaceshipsServer.TickKeepsInv | demos/spaceships/src/shared.rs:308-377 | every tick, whoever leaves, fires or is hit, keeps shots spaced and live bullets young, if whoever gets a new weapon is rested |
| SpaceshipsServer.SpacedIffRested | demos/spaceships/src/server.rs:92-140 | a tick before which players leave and join keeps every press pattern spaced if and only if those who get a new weapon last fired longer ago than the gap |
| SpaceshipsServer.FewLiveBullets | demos/spaceships/src/shared.rs:374-377 | with shots more than a gap apart, a player has at most lifetime/(gap+1)+1 live bullets |
| SpaceshipsSessions.BulletsAreUnique | demos/spaceships/src/shared.rs:363-381 | in every server run, however players come and go, no two bullets share owner and tick, and nobody has more than lifetime+1 live ones |
| SpaceshipsSessions.HashesAreUnique | demos/spaceships/src/shared.rs:363-381 | in every server run with owners of 32 bits all bullets ever fired have different hashes |
| SpaceshipsSessions.AlwaysSpacedIffRested | demos/spaceships/src/server.rs:92-140 | for any comings and goings over a run: shots are more than the gap apart under every press pattern if and only if whoever comes back has been away for longer than the gap |
| SpaceshipsSessions.RestedRunIsBounded | demos/spaceships/src/server.rs:140 | in such a run a player's shots are at least 13 ticks apart and at most 10 bullets live |
| SpaceshipsSessions.ReconnectResetsCooldown | demos/spaceships/src/protocol.rs:131-138 | a player who drops out and comes back fires at ticks 100 and 105 |
| SpaceshipsSessions.EveryCountIsReached | crates/replication/replication/src/control.rs:98-113 | reconnecting before every tick, a player reaches every number of live bullets up to lifetime+1 |
| SpaceshipsHash.HashIsMixed | demos/spaceships/src/shared.rs:421-428 | the hash bit by bit and round by round: the tick over both halves of the owner, then shifts of 30, 27 and 31 bits and the two multipliers modulo 2^64 |
| SpaceshipsHash.UnfinalizeInverts | demos/spaceships/src/shared.rs:421-428 | the mixer is undone by an explicit inverse, for all 64-bit words |
| SpaceshipsHash.CollisionsExactly | demos/spaceships/src/shared.rs:421-428 | two shots share a hash if and only if their owners differ, in both halves, by the difference of their ticks |
| SpaceshipsHash.HashIsInjective | demos/spaceships/src/shared.rs:421-428 | for owners of 32 bits and all ticks the hash identifies owner and tick |
| SpaceshipsHash.HashIsInjectiveInEach | demos/spaceships/src/shared.rs:421-428 | for any owners, shots of one owner or of one tick never share a hash |
| SpaceshipsHash.WideOwnersCollide | demos/spaceships/src/shared.rs:421-428 | for every shot and every other tick there is a 64-bit owner whose shot has the same hash |
| SpaceshipsCollisions.ProcessCollisions | demos/spaceships/src/shared.rs:694-793 | the loop's despawns and messages for any contact list, client, server and P2P |
| SpaceshipsCollisions.HitsMeaning | demos/spaceships/src/shared.rs:735-754 | there is a message exactly for what some bullet strikes, naming its owner and the victim if that is a player |
| SpaceshipsCollisions.HitsExactly | demos/spaceships/src/shared.rs:718-793 | in any application, how often each message is written: once for each side of each contact that lands with its owner, look and victim; so as many messages as sides that land |
| SpaceshipsCollisions.LandsWhenAuthoritative | demos/spaceships/src/shared.rs:735-739 | on the server and in P2P a side lands exactly if it is a bullet and the other not the ship that fired it |
| SpaceshipsCollisions.DespawnsMeaning | demos/spaceships/src/shared.rs:735-743 | a bullet is despawned exactly when it touches anything but the ship that fired it |
| SpaceshipsCollisions.DespawnsAreLandings | demos/spaceships/src/shared.rs:722-743 | in any application a bullet is despawned exactly if a side with it lands |
| SpaceshipsCollisions.FlipIsHarmlessIff | demos/spaceships/src/shared.rs:714-793 | on client, server and peer: a contact reported either way round has the same effects if and only if it is not so that one side ends it early and the other is despawned |
| SpaceshipsCollisions.ClientFlipExample | demos/spaceships/src/shared.rs:722-725 | on a client, a contact of a prespawned with a predicted bullet for which the orientation matters |
| SpaceshipsCollisions.FlipIsHarmless | demos/spaceships/src/shared.rs:714-717 | on the server and in P2P every contact has the same effects either way round |
| SpaceshipsCollisions.OrderIsHarmless | demos/spaceships/src/shared.rs:718-793 | on client, server and peer the order of the contacts changes neither despawns nor the multiset of messages |
| SpaceshipsCollisions.ContactOrderIsHarmless | demos/spaceships/src/shared.rs:714-793 | despawns and the multiset of messages depend only on which pairs are in contact |
| SpaceshipsCollisions.ScoreBoard.HandleHits | demos/spaceships/src/server.rs:253-270 | every row gains the sum of the changes of all messages, and nothing else |
| SpaceshipsCollisions.ScoreIsLandings | demos/spaceships/src/server.rs:253-270 | from the contacts of a tick: a score gains a point for each hit on a ship landed by a bullet of its player and loses one for each landed on its own |
| SpaceshipsCollisions.GameScoreIsLandings | demos/spaceships/src/p2p.rs:95-112 | the same over any game |
| SpaceshipsCollisions.ScoreIsHitsMadeLessTaken | demos/spaceships/src/server.rs:257-269 | a score changes by the hits made on players less the hits taken |
| SpaceshipsCollisions.ScoresIgnoreContactOrder | demos/spaceships/src/p2p.rs:95-112 | final scores depend on neither order nor orientation of the contacts |
| SpaceshipsCollisions.TotalAfter | demos/spaceships/src/server.rs:253-270 | exactly how a list of messages changes the sum of the scores |
| SpaceshipsCollisions.TotalIsConserved | demos/spaceships/src/shared.rs:694-793 | with unique ids and the owners present no contact list changes the sum |
| SpaceshipsCollisions.P2PScoresSumToZero | demos/spaceships/src/p2p.rs:60-112 | in a game with the fixed roster the scores always sum to zero |
| ProjectileActions.ClientWorld.ConfigurePlayerActionOnInsert | demos/projectiles/src/client.rs:139-188 | the observer on the action configures it for the player it belongs to, if known |
| ProjectileActions.ClientWorld.ConfigureControlledPlayerActions | demos/projectiles/src/client.rs:191-233 | the observer on the player configures all its actions once it is a controlled player |
| ProjectileActions.ClientWorld.ActionOfArrives | demos/projectiles/src/client.rs:137-233 | the relationship arrives, in the place of any other: both sides are kept and the observers run |
| ProjectileActions.ConfigureAgain | demos/projectiles/src/client.rs:302-349 | configuring again, never from active to inactive, equals configuring once |
| ProjectileActions.RunSettles | demos/projectiles/src/client.rs:139-349 | after any sequence of arrivals, with repetitions and changes of owner, every action is a function of its last owner, of what is known of both, and of whether it was ever set up for local input |
| ProjectileActions.Confluence | demos/projectiles/src/client.rs:139-349 | any two orders of the same arrivals, each action given to one player, leave all actions equal |
| ProjectileActions.RaceIsWon | demos/projectiles/src/client.rs:139-349 | at every moment, however often actions change owner: a known action has its marker if and only if its current owner is controlled, and the mock if and only if not; it gets its source when first active and keeps it; an unknown one is untouched |
| ProjectileActions.LastOwnerDecides | demos/projectiles/src/client.rs:341-346 | an action given away by a controlled player loses its marker and is mocked, so for two owners the order matters |
| Lobbies.LobbyServer.constructor | examples/lobby/src/server.rs:57-67 | the server starts with one fresh lobby |
| Lobbies.LobbyServer.RemoveFromLobbies | examples/lobby/src/protocol.rs:54-67 | the loop removes the client from every lobby and drops the last one it emptied |
| LobbyRuns.RemoveEffect | examples/lobby/src/protocol.rs:54-67 | every lobby loses the first mention of the client, in its place, if none has nobody else |
| LobbyRuns.RemoveDropsEffect | examples/lobby/src/protocol.rs:54-67 | otherwise the last such lobby is dropped |
| Lobbies.LobbyServer.HandleJoin | examples/lobby/src/server.rs:174-203 | the whole new state after a join, and the panic on a lobby that does not exist |
| LobbyRuns.JoinEffect | examples/lobby/src/server.rs:182-201 | the client is last in the lobby it named and in its room, every other lobby, host and state is as before, and one fresh lobby is added exactly if no other is empty |
| Lobbies.LobbyServer.HandleExit | examples/lobby/src/server.rs:208-223 | the whole new state after an exit |
| Lobbies.LobbyServer.HandleDisconnection | examples/lobby/src/server.rs:129-140 | the whole new state after a disconnection, the client entity and its room gone |
| LobbyRuns.LeaveEffect | examples/lobby/src/server.rs:129-223 | an exit takes the client out of its room, a disconnection also out of the connected clients, and nothing else changes |
| Lobbies.LobbyServer.HandleStart | examples/lobby/src/server.rs:227-315 | the whole new state after a start, first, late or duplicate |
| LobbyRuns.StartEffect | examples/lobby/src/server.rs:242-262 | the lobby named is in game with the host the message names if it has just begun, the sender in it, every other lobby as before |
| LobbyRuns.StartSpawnsExactly | examples/lobby/src/server.rs:254-300 | exactly who gets how many entities from a start |
| LobbyRuns.RemoveLosesNobodyElse | examples/lobby/src/protocol.rs:54-67 | from any list of lobbies, every other client stays listed as often, with the same room, host and state |
| LobbyRuns.RemoveKeepsOrder | examples/lobby/src/protocol.rs:54-67 | lobbies keep their order and only one that has just become empty is dropped |
| LobbyRuns.RemoveKeepsMembers | examples/lobby/src/protocol.rs:54-67 | the client is gone, and the others are still in at most one lobby each |
| LobbyRuns.JoinKeepsInvIff | examples/lobby/src/server.rs:182-201 | a join keeps the invariant if and only if the client comes from no lobby |
| LobbyRuns.StartKeepsInvIff | examples/lobby/src/server.rs:238-311 | a start keeps the invariant if and only if the sender is in the lobby, or in none and the lobby has players |
| LobbyRuns.StartingTheEmptyLobby | examples/lobby/src/server.rs:242-262 | starting the empty lobby from outside breaks the invariant |
| LobbyRuns.HistoryKeepsInvIff | examples/lobby/src/server.rs:182-311 | whatever messages the server gets, the invariant has held so far if and only if every join came from no lobby and every start from a member, or from no lobby and for one with players |
| LobbyRuns.RunKeepsInv | examples/lobby/src/server.rs:196-200 | over every disciplined run: exactly one lobby is empty, and it is fresh; each client in at most one lobby and once; rooms distinct; members connected |
| LobbyRuns.HostNeverChanges | examples/lobby/src/server.rs:245-249 | whatever messages the server gets, disciplined or not: once a lobby is in game, every later state has it in game with the same host |
| LobbyRuns.LateStartSpawnsIff | examples/lobby/src/server.rs:254-262 | a late starter gets an entity if and only if it names no host |
| LobbyRuns.EntitiesAreEntries | examples/lobby/src/server.rs:182-311 | in every room of every disciplined run, under every interleaving: entities of a client plus entries by a start that names a host equal its entries into the game |
| LobbyRuns.OneEntityPerMembership | examples/lobby/src/server.rs:192-311 | in a game of the dedicated server a client has exactly one entity for each time it entered if and only if it has itself never started that game from outside naming a host |
| LobbyRuns.StartKeepsMembersInRoomIff | examples/lobby/src/server.rs:254-262 | a start keeps the members in their rooms if and only if its sender is a member or names no host |
| LobbyRuns.RunKeepsMembersInRoomIff | examples/lobby/src/server.rs:188-191 | over every run: nobody is in a room but the members of its lobby, and all members are in theirs throughout if and only if every late starter has named no host |
| Trail.PlayerTrail.PushHead | examples/delta_compression/src/protocol.rs:63-66 | the new point in front, the others behind it, at most 50 points |
| Trail.AppliedClosedForm | examples/delta_compression/src/protocol.rs:63-77 | after any diffs the trail is the first 50 of the diffs, newest first, followed by the initial trail |
| Trail.AppliedByIndex | examples/delta_compression/src/protocol.rs:63-77 | the same place by place |
| Trail.ReplicasConverge | examples/delta_compression/src/protocol.rs:69-77 | the same last 50 diffs make any two replicas equal |
| Trail.NextHeadIsOneMove | examples/delta_compression/src/shared.rs:9-30 | the head moves ten units for each key on each axis, opposite keys cancelling out |
| Trail.MovedByKeys | examples/delta_compression/src/shared.rs:9-30 | a tick of movement: nothing without a key, otherwise the moved head is pushed |
| Trail.RunStaysOnGrid | examples/delta_compression/src/shared.rs:9-30 | in every run neighbours are a move or nothing apart on each axis, and there are 1 to 50 points |
| Trail.InterpolationLeavesNoGap | examples/delta_compression/src/protocol.rs:79-105 | interpolating trails without gaps leaves none, for every ratio and any lengths |
| Trail.InterpolatedRunsLeaveNoGap | examples/delta_compression/src/protocol.rs:79-105 | so for the trails of any two runs, for every ratio, with 1 to 50 points |
| Trail.InterpolatedPoint | examples/delta_compression/src/protocol.rs:79-105 | within a rounding error of the ends of the range the trails themselves, in between every point is the weighted mean with the point at the same place, or the last, of the older trail |
| FpsHash.HashIsInjective | examples/fps/src/shared.rs:110-112 | for players whose product does not wrap, which includes all of 44 bits, and 19-bit ticks the hash identifies the shot |
| FpsHash.HashCollides | examples/fps/src/shared.rs:110-112 | player 0 at tick 2^19, player 1 at tick 475715 and the first player to wrap at tick 125028 share a hash |
| FpsHash.IdentifiesIff | examples/fps/src/shared.rs:110-112 | for two players or more: as long as no product wraps, all shots are identified if and only if ticks have 19 bits; with 19-bit ticks, if and only if no product wraps |

## Left out

- `f32` rounding and NaN: positions, lengths and ratios are exact reals.
- SnakeTail.TailPoints.ShortenBack: a head out of line with the first point is measured by coordinate distances, not by the Euclidean length; no run of the simulation has one.
- SnakeInterpolation.InterpolatePair: both tails must have a point, since the code unwraps the first one of each; and where a run that returns puts the rebuilt head out of line with its tail, the cut measures that first segment by coordinate distances, so only the head is claimed to be wrong there.
- The loops of `interpolate` and of the movement systems over all entities: one tail and its head at a time.
- Bullet position, velocity, colour and physics in `shared_player_firing`; a shot is its owner and tick, and `look` stands for what a hit message carries along.
- Hiding an interpolated bullet on a client: `ProcessCollisions` has the early exit but not the effect, which is only visible.
- The rollback engine, replication and input buffers themselves: a rollback is restoring the weapons of a tick and simulating again.
- Two connections of one player id at the same time: the server model has one ship for each id.
- Overflow of the `i32` scores and of room ids.
- Removal of `Controlled` or `PlayerMarker` and several typed actions on one entity in the projectiles demo: no observer handles them. Components of one message count as arriving one after the other.
- The messages `handle_start_game` sends back, and what clients do with them.
- The host-server mode of the lobby example, its movement, and despawning of player entities.
- Renderers, UI, transport, authentication, timers, automation and the other examples.
