# Tank arena: a verified model of the server world and the client mirror

The system is a small browser shooter. A Node server (`server.js`) owns the
authoritative world: the player table keyed by socket connection id and walked in
join order, and the array of bullets in flight. It runs five socket handlers —
`new-player`, `move`, `rotate`, `shoot` and `disconnect` — and a 30 ms tick. The tick
advances every bullet, lets it hit the first eligible player, culls bullets that
left the 800 x 600 arena and respawns the dead. Every change is broadcast to the
sender, to everyone else or to all.

The browser client (`public/main.js`) keeps a mirror of that table and of the
bullets, updated by one handler per server event. Each frame it steers the local
player with w/a/s/d inside a clamp and advances and culls its own copy of the
bullets. It also has join and leave buttons.

The model has six modules:

- `Shared` — the values both sides use:
  - the player row, the bullet and the spawn spot;
  - `splice(i, 1)` on sequences;
  - the wire messages, their audience (sender only, everyone else, all) and a
    connection's inbox over the server's log.
- `Arena` — the tick on values. `Step` is one pass of the backwards bullet loop,
  `SweepFrom`/`Sweep` the whole loop, `RespawnFrom` the respawn loop and `Tick` both
  loops. Lemmas state what a hit does, that bullets stay inside the arena, and how
  the respawn pass behaves.
- `Server` — class `World`. Its fields are the join order, the player table, the
  bullet array and the log of emits. There is one method per handler. `Tick` runs
  the two loops in place and is proved equal to `Arena.Tick`.
- `ClientView` — class `Client` and its specification:
  - the JavaScript `trim`, the clamp and the steering step;
  - the client bullet cull `Culled`;
  - the mirror handlers `Apply`/`ApplyAll`.

  The methods `Receive`, `CatchUp`, `Update`, `Join`, `Leave` and `Aim` change the
  client in place and are proved against those functions.
- `Replication` — the server and a client together. When a client's mirror equals
  the server's table, it still equals the table after any handler or tick once the
  events that reach the client are delivered. For the mover's own client, its own
  local step takes the place of the event it is not sent, provided the server
  handles its request before anything else happens to its row (see Left out).
- `FixedSweep` — the bullet loop with the double removal corrected (see Findings).

Nondeterminism becomes parameters:
- `Math.random()` spawn and respawn positions are `Spot` arguments. The tick
  receives one draw per join-order position, in `[50, 750) x [50, 550)`.
- `randomColor()` is an index `pick` into the palette.
- The keys held during a frame are a set of key names.

Positions are `real`, and the test `Math.sqrt(dx*dx + dy*dy) < 16` is written
`dx*dx + dy*dy < 256`, which is equivalent for reals.

## Model

| member | source | states |
|---|---|---|
| `Shared.Splice` | server.js:74-80 | `splice(i, 1)`: one shorter when i is in range, the elements below i kept, the ones above shifted down by one; unchanged when i is past the end |
| `Shared.Inbox` | server.js:28-29 | a connection receives at most as many messages as were logged |
| `Shared.InboxOfOne` | server.js:28-29 | one event is received exactly when its audience includes the connection |
| `Shared.InboxSound` | server.js:28-29 | every received message was logged for an audience that includes the connection |
| `Shared.InboxSplitAt` | server.js:28-29 | an event that reaches the connection is received, after what the log holds before it and before what it holds after it |
| `Shared.InboxKeepsOrder` | server.js:28-29 | two events that reach the connection are received in log order |
| `Shared.InboxAppend` | server.js:28-29 | what a connection receives from two stretches of the log is what it receives from each, in order |
| `Shared.InboxOfBroadcasts` | server.js:73 | from events sent to all, every connection receives every message, in order |
| `Arena.FirstTarget` | server.js:66-77 | the scan of the table in join order: when it finds position k, that player is present, not the bullet's owner and strictly within 16 of the advanced bullet, and no earlier player is; it finds nothing exactly when no player qualifies |
| `Arena.FirstTargetIsFirstEligible` | server.js:66-77 | the scan returns k if and only if k holds the first eligible player |
| `Arena.Step` | server.js:61-81 | one pass of the bullet loop never grows the bullet array, leaves the bullets below index i untouched and keeps the set of player ids |
| `Arena.SweepFrom` | server.js:61-82 | the bullet loop never adds or removes a player |
| `Arena.RespawnFrom` | server.js:85-92 | the respawn loop never adds or removes a player |
| `Arena.StepHit` | server.js:71-75 | when k holds the first eligible player, that player alone goes to hp - 20 and exactly one 'player-hit' to all carries the new hp |
| `Arena.StepMiss` | server.js:66-77 | with no eligible player the table and the log are unchanged |
| `Arena.StepSparesOwner` | server.js:67 | a bullet never changes its owner's row |
| `Arena.StepChangesAtMostOne` | server.js:66-76 | a pass changes one player at most, only its hp and by exactly 20, that player was eligible, and the log gains nothing or one 'player-hit' with that player's new hp, which may be 0 or below |
| `Arena.StepLogsHit` | server.js:73 | a pass appends at most one event, a 'player-hit' to all, and keeps the earlier log |
| `Arena.StepBullets` | server.js:62-81 | the bullet at i is advanced by exactly (vx, vy); it stays in place when it hit nobody and is inside the arena, and is removed when exactly one of the two happened; at the last index, a hit that also leaves removes that bullet alone |
| `Arena.StepDoubleSplice` | server.js:74-80 | a bullet that hits and also leaves the arena is spliced at i twice, so bullet i + 1 is lost with it |
| `Arena.StepKeepsArena` | server.js:79-81 | after a pass every bullet from index i up is inside the arena, when every bullet above i was |
| `Arena.SweepFromKeepsArena` | server.js:61-82 | the loop invariant of the backwards bullet loop: what is above the current index stays inside the arena |
| `Arena.SweepInArena` | server.js:61-82 | after the bullet loop every remaining bullet lies in [0,800] x [0,600] |
| `Arena.SweepFromWounds` | server.js:61-82 | the bullet loop only lowers hp and touches no other field of any player |
| `Arena.SweepFromLogsHits` | server.js:61-82 | the bullet loop only appends, and only 'player-hit' events to all |
| `Arena.RespawnRevives` | server.js:85-92 | each player in join order ends with hp 100 at its drawn position if its hp was 0 or below and unchanged otherwise; the bullets are untouched |
| `Arena.Dead` | server.js:86 | the ids it lists are present players with hp 0 or below |
| `Arena.DeadExactly` | server.js:85-86 | the dead list holds only ids of the order and every dead id of it, each once when the order repeats none |
| `Arena.DeadAppend` | server.js:85-86 | the dead of two stretches of the order are the dead of each, in order |
| `Arena.DeadSplitAt` | server.js:85-86 | a dead player is listed after the dead before it and before the dead after it |
| `Arena.DeadKeepsOrder` | server.js:85-86 | two dead players are listed in join order |
| `Arena.DeadAgrees` | server.js:85-86 | which players are dead depends only on their rows |
| `Arena.RespawnAnnounces` | server.js:85-92 | the respawn loop emits exactly one 'player-respawn' to all per dead player, in join order, carrying its respawned position and hp |
| `Arena.TickAftermath` | server.js:60-93 | after a tick no player is added or removed, every hp is in (0, 100], each player either only lost hp or was respawned with hp 100 inside [50,750) x [50,550), and every bullet lies in the arena |
| `Arena.TickLog` | server.js:60-93 | a tick appends the bullet loop's 'player-hit' events, then the respawn announcements of the dead in join order |
| `Arena.TickLosesUntouchedBullet` | server.js:74-80 | a concrete tick in which a bullet that hits nobody and stays in the arena is lost |
| `FixedSweep.StepFixed` | server.js:61-81 | the corrected pass keeps the bullets below index i |
| `FixedSweep.Survivors` | server.js:61-82 | the intended survivors are at most the bullets there were, all inside the arena |
| `FixedSweep.FirstTargetIgnoresHp` | server.js:66-71 | who a bullet hits depends on ids and positions, not on hp |
| `FixedSweep.StepKeepsPositions` | server.js:72 | a pass leaves every position as it was |
| `FixedSweep.StepFixedSuffix` | server.js:61-82 | the loop invariant of the corrected loop: the processed suffix is the survivors of what it came from |
| `FixedSweep.SweepFixedFromSurvivors` | server.js:61-82 | the corrected loop from index i yields the survivors of the whole array |
| `FixedSweep.PrefixShift` | server.js:61 | moving bullet i from the unprocessed prefix to the processed part keeps the concatenation |
| `FixedSweep.SweepFixedKeepsSurvivors` | server.js:61-82 | with one removal per bullet, the bullets after the loop are exactly those that hit nobody and stayed inside, advanced, in order |
| `FixedSweep.StepFixedAgreesOffBullets` | server.js:66-77 | the correction changes only the bullet array: hits, hp and the log are as written |
| `Server.DefaultName` | server.js:24 | the default name is `Player-` followed by the first four characters of the id, or all of them for a shorter id |
| `Server.Without` | server.js:54 | deleting an id from the join order removes just that id and keeps the order distinct |
| `Server.WithoutAppend` | server.js:54 | deleting from two stretches of the order is deleting from each, in order |
| `Server.WithoutKeepsOrder` | server.js:54 | the remaining ids keep their join order: one at position a < b lands before the one at b |
| `Server.World.constructor` | server.js:12-13 | the world starts with no players, no bullets and no events |
| `Server.World.NewPlayer` | server.js:19-30 | the row for the id is set with hp 100, angle 0, the given or default name and the given or drawn colour, overwriting in place or appending to the join order; 'init-state' with the whole table goes to the joiner and 'player-joined' to the others |
| `Server.World.Move` | server.js:32-38 | for a known id only x and y change, as reported, and 'player-moved' goes to the others; an unknown id changes nothing |
| `Server.World.Rotate` | server.js:41-46 | for a known id only the angle changes and 'player-rotated' goes to the others; an unknown id changes nothing |
| `Server.World.Shoot` | server.js:48-51 | exactly one bullet owned by the sender is appended, joined or not, and 'bullet-fired' goes to all |
| `Server.World.Disconnect` | server.js:53-56 | only the sender's row is deleted, and 'player-left' goes to the others in every case |
| `Server.World.Tick` | server.js:60-93 | the in-place tick equals `Arena.Tick` on the world's state, keeps the table well formed with every hp in (0, 100], and leaves only bullets inside the arena |
| `Server.World.SweepBullets` | server.js:61-82 | the in-place backwards bullet loop equals `Arena.Sweep` |
| `Server.World.StepBullet` | server.js:62-81 | one in-place pass, with its player scan and bounds test, equals `Arena.Step` |
| `Server.World.RespawnDead` | server.js:85-92 | the in-place respawn loop equals `Arena.RespawnFrom` from the first player |
| `ClientView.Lead` | public/main.js:16 | the count of leading characters that are ECMAScript white space, stopping at the first that is not |
| `ClientView.Kept` | public/main.js:16 | the length without the trailing white space: everything past it is white space, the character before it is not |
| `ClientView.Trim` | public/main.js:16 | the result starts and ends with a non-space and is empty exactly when the input is all white space |
| `ClientView.TrimIsInfix` | public/main.js:16 | the trimmed name is a slice of the input, and every character outside that slice is white space |
| `ClientView.TrimIdempotent` | public/main.js:16 | trimming twice is trimming once |
| `ClientView.RequestedName` | public/main.js:16 | the requested name is never empty: the trimmed input when that is not empty, otherwise "Player" |
| `ClientView.RequestedNameOfBlank` | public/main.js:16 | a blank input requests "Player" |
| `ClientView.Clamp` | public/main.js:86-87 | the result lies in [lo, hi], equals v when v already does, and is the nearer bound otherwise |
| `ClientView.Steer` | public/main.js:81-87 | the steered position lies in [15,785] x [15,585], and with no key held an in-range position is kept |
| `ClientView.SteerOneKey` | public/main.js:82-85 | w, s, a and d alone move by -3 in y, +3 in y, -3 in x and +3 in x respectively, away from the clamp |
| `ClientView.SteerNotHeldStaysPut` | public/main.js:86-87 | with no steering key held a frame only clamps |
| `ClientView.Culled` | public/main.js:91-95 | the culled bullets are at most as many as before and all on the canvas |
| `ClientView.CulledAppend` | public/main.js:91-95 | the cull treats each bullet on its own and keeps the order |
| `ClientView.CulledKeepsAll` | public/main.js:93 | when every advanced bullet is on the canvas, each is kept at its index advanced by exactly (vx, vy) |
| `ClientView.CulledDropsOff` | public/main.js:94 | a bullet whose advanced position is off the canvas does not survive |
| `ClientView.CullStep` | public/main.js:91-95 | the loop invariant of the backwards client loop: one pass moves bullet i into the culled suffix |
| `ClientView.ApplyIgnoresAbsent` | public/main.js:41-45 | 'player-moved', 'player-rotated', 'player-hit' and 'player-respawn' do nothing for an id the mirror lacks |
| `ClientView.ApplyGuardedFields` | public/main.js:41-45 | for a known id those four rewrite only that row and only the fields their message names |
| `ClientView.ApplyMembership` | public/main.js:39-43 | 'player-joined' inserts or overwrites exactly one key with the sent row, 'player-left' deletes exactly that key, 'bullet-fired' appends exactly one bullet |
| `ClientView.ApplyInitState` | public/main.js:38 | 'init-state' merges the sent table over the mirror, the sent rows winning, and sets the own id to the connection's |
| `ClientView.ApplyAllAppend` | public/main.js:38-45 | handling two batches of events is handling their concatenation |
| `ClientView.Client.constructor` | public/main.js:6-8 | a client starts with no own id, an empty table and no bullets |
| `ClientView.Client.Join` | public/main.js:14-22 | ignored once the own id is set; otherwise exactly one 'new-player' with the spawn point and the requested name is sent |
| `ClientView.Client.Leave` | public/main.js:24-34 | ignored without an own id; otherwise the client disconnects, forgets its id and empties both the table and the bullets |
| `ClientView.Client.Receive` | public/main.js:38-45 | each handler changes the client exactly as `Apply` says |
| `ClientView.Client.CatchUp` | public/main.js:38-45 | delivering a server log leaves the client as `ApplyAll` of the messages that reach it |
| `ClientView.Client.Aim` | public/main.js:53-62 | with an own row only its angle changes and one 'rotate' is sent; otherwise nothing happens |
| `ClientView.Client.Update` | public/main.js:78-96 | the own row moves to `Steer` of its position, 'move' with the clamped position is sent exactly when a steering key is held, and the bullets become `Culled` of what they were |
| `ClientView.Client.CullBullets` | public/main.js:91-95 | the in-place backwards loop yields `Culled` of the bullets |
| `Replication.DeliveredTwice` | public/main.js:38-45 | delivering two consecutive stretches of the server log is delivering their union |
| `Replication.StepMirrored` | server.js:61-81 | a mirror equal to the table before one pass of the bullet loop equals it after the pass's 'player-hit' is delivered |
| `Replication.SweepFromMirrored` | server.js:61-82 | the same for the whole bullet loop |
| `Replication.RespawnFromMirrored` | server.js:85-92 | the same for the respawn loop and its 'player-respawn' events |
| `Replication.TickMirrored` | server.js:60-93 | a mirror equal to the table before a tick equals it after the tick's events are delivered; the tick only appends to the log |
| `Replication.MergeCovered` | public/main.js:38 | 'init-state' over a mirror whose ids the table all holds yields the table |
| `Replication.RelayMove` | server.js:32-38 | after 'move' and delivery to another client, mirror and table are equal and the mover is at the reported position in both |
| `Replication.RelayRotate` | server.js:41-46 | after 'rotate' and delivery to another client, mirror and table are equal and the angle is the reported one |
| `Replication.RelayJoinToOther` | server.js:19-30 | after 'new-player' and delivery to another client, that client holds the joiner's row as the server does |
| `Replication.RelayOwnJoin` | public/main.js:14-22 | join, 'new-player', then 'init-state': the client knows its id, holds the server's table, and its row has the requested name, the drawn position and hp 100 |
| `Replication.RelayLeave` | server.js:53-56 | after a leave and 'disconnect', another client drops the row as the server does |
| `Replication.RelayShoot` | server.js:48-51 | after 'shoot' every client, the shooter's included, appends the bullet the server appended |
| `Replication.RelayTick` | server.js:60-93 | after a tick and delivery, a client with a mirror equal to the table has an equal mirror again |
| `Replication.LocalMove` | public/main.js:78-88 | when the server's 'move' handles the sent request right after the local steering frame, the own row agrees on both sides and lies inside the clamp |
| `Replication.LocalAim` | public/main.js:53-62 | when the server's 'rotate' handles the sent request right after the local aim, client and server agree on the table |

## Left out

- Round timer, round lifecycle, scores and rankings: neither source file has them. There is no timer, no score field and no round guard on 'shoot', so the model follows the code.
- Transport and scheduling: the express static server, socket.io's handshake and delivery, `setInterval` and `requestAnimationFrame`. Handlers and the tick are atomic methods called in some order, and delivery is `CatchUp` over a stretch of the server log.
- The 'connect' log line and `console.log`: they have no effect on state.
- Rendering and DOM: `drawPlayer`, `loop`, the enabling and disabling of the buttons and the input, and the key and mouse listeners. The held keys are a parameter of `Update`.
- The click handler (public/main.js:65-75): it only computes a muzzle point and a velocity with `Math.cos`/`Math.sin` and sends 'shoot'. The server side of 'shoot' is modelled.
- Trigonometry: the `Math.atan2` of the aim handler is the `angle` parameter of `Client.Aim`.
- Floating point: positions are exact reals, so JavaScript rounding is not modelled.
- Randomness: `Math.random()` and `randomColor()` become parameters (see above). The generator itself is not modelled.
- The client's table order: the mirror is a map. Its iteration order only matters for drawing.
- A null own id: `players[myId]` with `myId` null looks up the key "null", which no socket id equals. The model treats it as "no own row".
- Client bullets are not removed when a bullet hits a player: the client has no handler for that. Only the player table is claimed to stay in agreement with the server's, not the bullets.
- After `socket.disconnect()` the client's socket does not reconnect. The model does not track connection liveness, so `Join` after `Leave` is allowed by `Client.Join`'s guard alone.
- Malformed payloads: handlers take their fields as typed values. A missing `info` or non-numeric coordinates are not modelled.
- Replication.LocalMove: assumes the server handles the request before any other event about the mover's row. If a tick hits and respawns the mover between the local step and the server's 'move', the server and the other clients take the requested position. The mover's client applies the respawn and is never sent its own 'player-moved', so it stays at the respawn point until its next key press. The client has no reconciliation, so the two can disagree.
- Replication.LocalAim: the same caveat holds for the own angle.
- Arena.Step: its own ensures states only the bullet prefix and the key set. Its effect on the table, the log and the bullet at i is stated by `StepHit`, `StepMiss`, `StepChangesAtMostOne`, `StepLogsHit` and `StepBullets`.

## Findings

| source | as written | input that shows it | evidently intended | confidence | as-written member | corrected member |
|---|---|---|---|---|---|---|
| server.js:74-80 | after a hit splices bullet i and breaks out of the player scan, the bounds test still runs on the removed bullet; if that bullet is also out of bounds, a second `splice(i, 1)` removes the bullet that moved into index i, which the backwards loop has already processed | one player "b" at (5, 300); bullet 0 at (1, 300) moving (-2, 0) by "a"; bullet 1 at (400, 300) at rest by "a". Bullet 1 hits nobody and stays inside, but after the tick no bullet is left | remove a bullet once when it hit someone or left the arena; every bullet that hit nobody and stayed inside survives, advanced, in order | not executed | `Arena.TickLosesUntouchedBullet` (with `Arena.StepDoubleSplice`) | `FixedSweep.SweepFixedKeepsSurvivors` |

`Server.World.Tick` keeps the double splice as written, because it models the
running server. `FixedSweep` shows that removing each bullet once keeps exactly
the intended survivors and leaves hits, hp and the log unchanged
(`FixedSweep.StepFixedAgreesOffBullets`).
