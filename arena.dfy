/** The server's 30 ms tick on values: advance every bullet, let it hit the first
    eligible player in join order, cull it when it leaves the arena, then respawn
    every player whose hp fell to zero or below. The class `Server.World` runs the
    same tick in place and is proved equal to `Tick` below. */
module Arena {
  import opened Shared

  const ARENA_WIDTH: real := 800.0
  const ARENA_HEIGHT: real := 600.0
  const HIT_RADIUS_SQUARED: real := 256.0   // the hit radius 16, squared
  const DAMAGE: int := 20
  const FULL_HP: int := 100

  predicate Distinct(ids: seq<Id>) {
    forall i, j | 0 <= i < j < |ids| :: ids[i] != ids[j]
  }

  /** Every id of `order` has a row in `players`. */
  predicate Covers(order: seq<Id>, players: map<Id, Player>) {
    forall k | 0 <= k < |order| :: order[k] in players
  }

  /** `order` lists the keys of `players` once each, in insertion order: the order
      in which `for (const id in players)` visits them. */
  predicate Table(order: seq<Id>, players: map<Id, Player>) {
    && Distinct(order)
    && Covers(order, players)
    && forall id | id in players :: id in order
  }

  /** The bounds test `b.x < 0 || b.x > 800 || b.y < 0 || b.y > 600`. */
  predicate OutOfArena(b: Bullet) {
    b.x < 0.0 || b.x > ARENA_WIDTH || b.y < 0.0 || b.y > ARENA_HEIGHT
  }

  /** `Math.sqrt(dx*dx + dy*dy) < 16`, squared on both sides. */
  predicate Close(dx: real, dy: real) {
    dx * dx + dy * dy < HIT_RADIUS_SQUARED
  }

  /** The player is within the hit radius of the bullet. */
  predicate Within(p: Player, b: Bullet) {
    Close(p.x - b.x, p.y - b.y)
  }

  /** A player the bullet can hit: present, not the shooter, and within the hit radius. */
  predicate Eligible(players: map<Id, Player>, id: Id, b: Bullet) {
    id != b.owner && id in players && Within(players[id], b)
  }

  /** Position k of the join order holds the first player the bullet can hit. */
  ghost predicate FirstEligible(order: seq<Id>, players: map<Id, Player>, b: Bullet, k: int) {
    && 0 <= k < |order|
    && Eligible(players, order[k], b)
    && forall j | 0 <= j < k :: !Eligible(players, order[j], b)
  }

  /** The scan `for (const id in players)` from position `from`, stopping at the first hit. */
  function FirstTarget(order: seq<Id>, players: map<Id, Player>, b: Bullet, from: nat): (r: Option<nat>)
    requires from <= |order|
    ensures r.Some? ==> from <= r.value < |order| && Eligible(players, order[r.value], b)
    ensures r.Some? ==> forall j | from <= j < r.value :: !Eligible(players, order[j], b)
    ensures r.None? <==> forall j | from <= j < |order| :: !Eligible(players, order[j], b)
    decreases |order| - from
  {
    if from == |order| then None
    else if Eligible(players, order[from], b) then Some(from)
    else FirstTarget(order, players, b, from + 1)
  }

  /** The scan finds position k exactly when k holds the first eligible player. */
  lemma FirstTargetIsFirstEligible(order: seq<Id>, players: map<Id, Player>, b: Bullet, k: int)
    ensures FirstTarget(order, players, b, 0) == Some(k) <==> FirstEligible(order, players, b, k)
  {
    if FirstEligible(order, players, b, k) {
      assert Eligible(players, order[k], b);
    }
  }

  /** What the tick works on: the player table, the bullet array and the outbound log. */
  datatype TickState = TickState(players: map<Id, Player>, bullets: seq<Bullet>, log: seq<Event>)

  /** The player `p` after one hit. */
  function Damaged(p: Player): Player {
    p.(hp := p.hp - DAMAGE)
  }

  /** The first half of one pass of the bullet loop, on index i: the bullet is advanced
      and the players are scanned in join order; the first eligible one loses 20 hp,
      'player-hit' goes to all and `splice(i, 1)` drops the bullet. */
  function Scanned(order: seq<Id>, s: TickState, i: nat): (r: TickState)
    requires i < |s.bullets|
  {
    var b := Moved(s.bullets[i]);
    var hit := FirstTarget(order, s.players, b, 0);
    if hit.None? then TickState(s.players, s.bullets[i := b], s.log)
    else
      var id := order[hit.value];
      var p := Damaged(s.players[id]);
      TickState(s.players[id := p], Splice(s.bullets[i := b], i), s.log + [Event(ToAll, PlayerHit(id, p.hp))])
  }

  /** One pass of the bullet loop, on index i, as server.js writes it: the scan above,
      then the bounds test on the advanced bullet; when it fails a second `splice(i, 1)`
      removes whatever now sits at i. */
  function Step(order: seq<Id>, s: TickState, i: nat): (r: TickState)
    requires i < |s.bullets|
    ensures i <= |r.bullets| <= |s.bullets|
    ensures r.bullets[..i] == s.bullets[..i]
    ensures r.players.Keys == s.players.Keys
  {
    var mid := Scanned(order, s, i);
    if OutOfArena(Moved(s.bullets[i])) then mid.(bullets := Splice(mid.bullets, i)) else mid
  }

  /** The loop `for (let i = bullets.length - 1; i >= 0; i--)`, continued from index i. */
  function SweepFrom(order: seq<Id>, s: TickState, i: int): (r: TickState)
    requires i < |s.bullets|
    ensures r.players.Keys == s.players.Keys
    decreases i + 1
  {
    if i < 0 then s else SweepFrom(order, Step(order, s, i), i - 1)
  }

  function Sweep(order: seq<Id>, s: TickState): TickState {
    SweepFrom(order, s, |s.bullets| - 1)
  }

  /** The respawn loop from position k of the join order on: a player with hp <= 0
      gets hp 100 and the position drawn for it, and 'player-respawn' goes to all. */
  function RespawnFrom(order: seq<Id>, s: TickState, draws: seq<Spot>, k: nat): (r: TickState)
    requires k <= |order| <= |draws|
    requires Covers(order, s.players)
    ensures r.players.Keys == s.players.Keys
    decreases |order| - k
  {
    if k == |order| then s
    else
      var id := order[k];
      var p := s.players[id];
      var next :=
        if p.hp <= 0 then
          var q := p.(hp := FULL_HP, x := draws[k].x, y := draws[k].y);
          s.(players := s.players[id := q], log := s.log + [Event(ToAll, PlayerRespawn(id, q.x, q.y, q.hp))])
        else s;
      RespawnFrom(order, next, draws, k + 1)
  }

  /** The whole tick (server.js lines 60-93). Draw k is the position a respawn of the
      k-th player in join order gets. */
  function Tick(order: seq<Id>, s: TickState, draws: seq<Spot>): TickState
    requires Covers(order, s.players) && |order| <= |draws|
  {
    var swept := Sweep(order, s);
    assert Covers(order, swept.players);
    RespawnFrom(order, swept, draws, 0)
  }

  // ---------------------------------------------------------------------------
  // One bullet

  /** When position k holds the first eligible player, that player alone loses 20 hp
      and exactly one 'player-hit' carrying the new hp goes to all. */
  lemma StepHit(order: seq<Id>, s: TickState, i: nat, k: nat)
    requires i < |s.bullets|
    requires FirstEligible(order, s.players, Moved(s.bullets[i]), k)
    ensures var id := order[k];
      && Step(order, s, i).players == s.players[id := Damaged(s.players[id])]
      && Step(order, s, i).log == s.log + [Event(ToAll, PlayerHit(id, s.players[id].hp - DAMAGE))]
  {
    FirstTargetIsFirstEligible(order, s.players, Moved(s.bullets[i]), k);
  }

  /** When no player is eligible, the table and the log are untouched. */
  lemma StepMiss(order: seq<Id>, s: TickState, i: nat)
    requires i < |s.bullets|
    requires forall j | 0 <= j < |order| :: !Eligible(s.players, order[j], Moved(s.bullets[i]))
    ensures Step(order, s, i).players == s.players
    ensures Step(order, s, i).log == s.log
  {
  }

  /** A bullet never damages its owner. */
  lemma StepSparesOwner(order: seq<Id>, s: TickState, i: nat)
    requires i < |s.bullets|
    ensures var owner := s.bullets[i].owner;
      owner in s.players ==> Step(order, s, i).players[owner] == s.players[owner]
  {
  }

  /** A step changes one player at most, and only its hp, by exactly 20, and it emits
      at most one event, a 'player-hit' to all with that player's new hp. A changed
      player is within the hit radius of the advanced bullet and is not its owner. */
  lemma StepChangesAtMostOne(order: seq<Id>, s: TickState, i: nat)
    requires i < |s.bullets|
    ensures var r := Step(order, s, i);
      && (forall id | id in s.players ::
            r.players[id] == s.players[id]
            || (&& r.players[id] == s.players[id].(hp := s.players[id].hp - DAMAGE)
                && Eligible(s.players, id, Moved(s.bullets[i]))
                && r.log == s.log + [Event(ToAll, PlayerHit(id, r.players[id].hp))]))
      && (forall a, c | a in s.players && c in s.players && r.players[a] != s.players[a] && r.players[c] != s.players[c] :: a == c)
      && (r.log == s.log || exists id | id in r.players :: r.log == s.log + [Event(ToAll, PlayerHit(id, r.players[id].hp))])
  {
    var b := Moved(s.bullets[i]);
    var hit := FirstTarget(order, s.players, b, 0);
    if hit.Some? {
      var id := order[hit.value];
      assert Step(order, s, i).players == s.players[id := Damaged(s.players[id])];
    }
  }

  /** A step appends at most one event, a 'player-hit' to all. */
  lemma StepLogsHit(order: seq<Id>, s: TickState, i: nat)
    requires i < |s.bullets|
    ensures var r := Step(order, s, i);
      && |s.log| <= |r.log| <= |s.log| + 1
      && r.log[..|s.log|] == s.log
      && (|r.log| > |s.log| ==> r.log[|s.log|].to == ToAll && r.log[|s.log|].msg.PlayerHit?)
  {
  }

  /** The bullet array after one step: the entries below i are untouched, and the entry at i
      is the advanced bullet when it hit nobody and stayed in the arena, and gone otherwise. */
  lemma StepBullets(order: seq<Id>, s: TickState, i: nat)
    requires i < |s.bullets|
    ensures var b := Moved(s.bullets[i]);
      var hit := FirstTarget(order, s.players, b, 0).Some?;
      var r := Step(order, s, i);
      && (!hit && !OutOfArena(b) ==> r.bullets == s.bullets[i := b])
      && (hit != OutOfArena(b) ==> r.bullets == s.bullets[..i] + s.bullets[i + 1..])
      && (hit && OutOfArena(b) && i + 1 == |s.bullets| ==> r.bullets == s.bullets[..i])
  {
  }

  /** The double splice: a bullet that hits a player while leaving the arena is spliced
      out twice at index i, and the second splice drops bullet i + 1, which the loop has
      already processed. */
  lemma StepDoubleSplice(order: seq<Id>, s: TickState, i: nat)
    requires i + 1 < |s.bullets|
    requires FirstTarget(order, s.players, Moved(s.bullets[i]), 0).Some?
    requires OutOfArena(Moved(s.bullets[i]))
    ensures Step(order, s, i).bullets == s.bullets[..i] + s.bullets[i + 2..]
  {
    var bs := s.bullets[i := Moved(s.bullets[i])];
    var once := Splice(bs, i);
    assert once == s.bullets[..i] + s.bullets[i + 1..];
    assert Splice(once, i) == s.bullets[..i] + s.bullets[i + 2..];
  }

  // ---------------------------------------------------------------------------
  // The bullet loop

  /** The loop keeps "every bullet above index i is inside the arena". */
  lemma StepKeepsArena(order: seq<Id>, s: TickState, i: nat)
    requires i < |s.bullets|
    requires forall k | i < k < |s.bullets| :: !OutOfArena(s.bullets[k])
    ensures var r := Step(order, s, i);
      forall k | i <= k < |r.bullets| :: !OutOfArena(r.bullets[k])
  {
    var b := Moved(s.bullets[i]);
    var bs := s.bullets[i := b];
    var r := Step(order, s, i);
    var hit := FirstTarget(order, s.players, b, 0);
    var afterHit := if hit.None? then bs else Splice(bs, i);
    assert forall k | i < k < |afterHit| :: !OutOfArena(afterHit[k]);
    assert r.bullets == if OutOfArena(b) then Splice(afterHit, i) else afterHit;
  }

  lemma {:induction false} SweepFromKeepsArena(order: seq<Id>, s: TickState, i: int)
    requires i < |s.bullets|
    requires forall k | i < k < |s.bullets| && 0 <= k :: !OutOfArena(s.bullets[k])
    ensures forall k | 0 <= k < |SweepFrom(order, s, i).bullets| :: !OutOfArena(SweepFrom(order, s, i).bullets[k])
    decreases i + 1
  {
    if i >= 0 {
      var next := Step(order, s, i);
      StepKeepsArena(order, s, i);
      SweepFromKeepsArena(order, next, i - 1);
      var r := SweepFrom(order, next, i - 1);
      assert SweepFrom(order, s, i) == r;
      assert forall k | 0 <= k < |r.bullets| :: !OutOfArena(r.bullets[k]);
    }
  }

  /** After the bullet loop every remaining bullet lies in [0,800] x [0,600]. */
  lemma SweepInArena(order: seq<Id>, s: TickState)
    ensures forall k | 0 <= k < |Sweep(order, s).bullets| :: !OutOfArena(Sweep(order, s).bullets[k])
  {
    SweepFromKeepsArena(order, s, |s.bullets| - 1);
  }

  /** `q` is `p` with at most its hp lowered. */
  ghost predicate Wounded(q: Player, p: Player) {
    q == p.(hp := q.hp) && q.hp <= p.hp
  }

  /** The bullet loop only lowers hp; it touches no other field of any player. */
  lemma {:induction false} SweepFromWounds(order: seq<Id>, s: TickState, i: int)
    requires i < |s.bullets|
    ensures var r := SweepFrom(order, s, i);
      forall id | id in s.players :: Wounded(r.players[id], s.players[id])
    decreases i + 1
  {
    if i >= 0 {
      var next := Step(order, s, i);
      StepChangesAtMostOne(order, s, i);
      assert forall id | id in s.players :: Wounded(next.players[id], s.players[id]);
      SweepFromWounds(order, next, i - 1);
    }
  }

  /** The bullet loop only appends to the log, and only 'player-hit' events to all. */
  lemma {:induction false} SweepFromLogsHits(order: seq<Id>, s: TickState, i: int)
    requires i < |s.bullets|
    ensures var r := SweepFrom(order, s, i);
      && |s.log| <= |r.log| && r.log[..|s.log|] == s.log
      && (forall k | |s.log| <= k < |r.log| :: r.log[k].to == ToAll && r.log[k].msg.PlayerHit?)
    decreases i + 1
  {
    if i >= 0 {
      var next := Step(order, s, i);
      StepLogsHit(order, s, i);
      SweepFromLogsHits(order, next, i - 1);
      var r := SweepFrom(order, next, i - 1);
      assert SweepFrom(order, s, i) == r;
      assert r.log[..|s.log|] == r.log[..|next.log|][..|s.log|];
      forall k | |s.log| <= k < |r.log|
        ensures r.log[k].to == ToAll && r.log[k].msg.PlayerHit?
      {
        if k < |next.log| {
          assert r.log[k] == r.log[..|next.log|][k] == next.log[k];
        }
      }
    }
  }

  // ---------------------------------------------------------------------------
  // The respawn loop

  /** A player row after the respawn test with draw `spot`. */
  function Revived(p: Player, spot: Spot): Player {
    if p.hp <= 0 then p.(hp := FULL_HP, x := spot.x, y := spot.y) else p
  }

  /** The respawn loop treats each player on its own: the player at position j of the
      join order ends as `Revived` with draw j, and the bullets are left alone. */
  lemma {:induction false} RespawnRevives(order: seq<Id>, s: TickState, draws: seq<Spot>, k: nat)
    requires k <= |order| <= |draws|
    requires Distinct(order) && Covers(order, s.players)
    ensures var r := RespawnFrom(order, s, draws, k);
      && r.bullets == s.bullets
      && (forall j | k <= j < |order| :: r.players[order[j]] == Revived(s.players[order[j]], draws[j]))
      && (forall id | id in s.players && id !in order[k..] :: r.players[id] == s.players[id])
    decreases |order| - k
  {
    if k < |order| {
      var id := order[k];
      var p := s.players[id];
      var next :=
        if p.hp <= 0 then
          var q := p.(hp := FULL_HP, x := draws[k].x, y := draws[k].y);
          s.(players := s.players[id := q], log := s.log + [Event(ToAll, PlayerRespawn(id, q.x, q.y, q.hp))])
        else s;
      assert RespawnFrom(order, s, draws, k) == RespawnFrom(order, next, draws, k + 1);
      RespawnRevives(order, next, draws, k + 1);
      var r := RespawnFrom(order, next, draws, k + 1);
      assert order[k..] == [id] + order[k + 1..];
      assert id !in order[k + 1..] by {
        forall j | k + 1 <= j < |order| ensures order[j] != id { }
      }
      forall j | k <= j < |order|
        ensures r.players[order[j]] == Revived(s.players[order[j]], draws[j])
      {
        if j > k {
          assert order[j] != id;
        }
      }
    }
  }

  /** The ids of `ids` whose hp is zero or below, in order. */
  function Dead(ids: seq<Id>, players: map<Id, Player>): (r: seq<Id>)
    requires forall k | 0 <= k < |ids| :: ids[k] in players
    ensures forall k | 0 <= k < |r| :: r[k] in players && players[r[k]].hp <= 0
  {
    if ids == [] then []
    else (if players[ids[0]].hp <= 0 then [ids[0]] else []) + Dead(ids[1..], players)
  }

  /** `Dead` lists exactly the dead ids of `ids`, and each once when `ids` repeats none. */
  lemma {:induction false} DeadExactly(ids: seq<Id>, players: map<Id, Player>)
    requires forall k | 0 <= k < |ids| :: ids[k] in players
    ensures forall k | 0 <= k < |Dead(ids, players)| :: Dead(ids, players)[k] in ids
    ensures forall k | 0 <= k < |ids| && players[ids[k]].hp <= 0 :: ids[k] in Dead(ids, players)
    ensures Distinct(ids) ==> Distinct(Dead(ids, players))
  {
    if ids != [] {
      var rest := Dead(ids[1..], players);
      DeadExactly(ids[1..], players);
      assert forall k | 1 <= k < |ids| && players[ids[k]].hp <= 0 :: ids[k] in rest by {
        forall k | 1 <= k < |ids| && players[ids[k]].hp <= 0 ensures ids[k] in rest {
          assert ids[1..][k - 1] == ids[k];
        }
      }
      assert forall k | 0 <= k < |rest| :: rest[k] in ids by {
        forall k | 0 <= k < |rest| ensures rest[k] in ids {
          var j :| 0 <= j < |ids[1..]| && ids[1..][j] == rest[k];
          assert ids[j + 1] == rest[k];
        }
      }
      assert Distinct(ids) ==> ids[0] !in ids[1..] && Distinct(ids[1..]);
    }
  }

  lemma {:induction false} DeadAppend(a: seq<Id>, c: seq<Id>, players: map<Id, Player>)
    requires forall k | 0 <= k < |a| :: a[k] in players
    requires forall k | 0 <= k < |c| :: c[k] in players
    ensures Dead(a + c, players) == Dead(a, players) + Dead(c, players)
  {
    if a == [] {
      assert a + c == c;
    } else {
      assert (a + c)[0] == a[0];
      assert (a + c)[1..] == a[1..] + c;
      DeadAppend(a[1..], c, players);
    }
  }

  /** A dead player at position b is listed after the dead before it and before the dead after it. */
  lemma DeadSplitAt(ids: seq<Id>, players: map<Id, Player>, b: nat)
    requires forall k | 0 <= k < |ids| :: ids[k] in players
    requires b < |ids| && players[ids[b]].hp <= 0
    ensures Dead(ids, players) == Dead(ids[..b], players) + [ids[b]] + Dead(ids[b + 1..], players)
  {
    var pre, post := ids[..b], ids[b + 1..];
    assert forall k | 0 <= k < |pre| :: pre[k] in players by {
      forall k | 0 <= k < |pre| ensures pre[k] in players { assert pre[k] == ids[k]; }
    }
    assert forall k | 0 <= k < |post| :: post[k] in players by {
      forall k | 0 <= k < |post| ensures post[k] in players { assert post[k] == ids[b + 1 + k]; }
    }
    assert Dead([ids[b]], players) == [ids[b]] by {
      assert [ids[b]][1..] == [];
    }
    assert ids == pre + ([ids[b]] + post);
    DeadAppend([ids[b]], post, players);
    DeadAppend(pre, [ids[b]] + post, players);
  }

  /** `Dead` keeps the join order: for two dead players at positions a < b of `ids`, the
      one at a is listed in the part before the one at b. */
  lemma DeadKeepsOrder(ids: seq<Id>, players: map<Id, Player>, a: nat, b: nat)
    requires forall k | 0 <= k < |ids| :: ids[k] in players
    requires a < b < |ids| && players[ids[a]].hp <= 0 && players[ids[b]].hp <= 0
    ensures Dead(ids, players) == Dead(ids[..b], players) + [ids[b]] + Dead(ids[b + 1..], players)
    ensures ids[a] in Dead(ids[..b], players)
  {
    DeadSplitAt(ids, players, b);
    var pre := ids[..b];
    assert pre[a] == ids[a];
    assert forall k | 0 <= k < |pre| :: pre[k] in players;
    DeadExactly(pre, players);
  }

  /** One 'player-respawn' to all per id, with the row `table` holds for it. */
  function Announcements(ids: seq<Id>, table: map<Id, Player>): seq<Event>
    requires forall k | 0 <= k < |ids| :: ids[k] in table
  {
    if ids == [] then []
    else
      var p := table[ids[0]];
      [Event(ToAll, PlayerRespawn(ids[0], p.x, p.y, p.hp))] + Announcements(ids[1..], table)
  }

  lemma {:induction false} DeadAgrees(ids: seq<Id>, a: map<Id, Player>, b: map<Id, Player>)
    requires forall k | 0 <= k < |ids| :: ids[k] in a && ids[k] in b && a[ids[k]] == b[ids[k]]
    ensures Dead(ids, a) == Dead(ids, b)
  {
    if ids != [] {
      DeadAgrees(ids[1..], a, b);
    }
  }

  /** The respawn loop announces exactly the dead players, in join order, each once,
      with its respawned row. */
  lemma {:induction false} RespawnAnnounces(order: seq<Id>, s: TickState, draws: seq<Spot>, k: nat)
    requires k <= |order| <= |draws|
    requires Distinct(order) && Covers(order, s.players)
    ensures var r := RespawnFrom(order, s, draws, k);
      r.log == s.log + Announcements(Dead(order[k..], s.players), r.players)
    decreases |order| - k
  {
    var r := RespawnFrom(order, s, draws, k);
    if k == |order| {
      assert order[k..] == [];
    } else {
      var id := order[k];
      var p := s.players[id];
      var q := p.(hp := FULL_HP, x := draws[k].x, y := draws[k].y);
      var next :=
        if p.hp <= 0 then
          s.(players := s.players[id := q], log := s.log + [Event(ToAll, PlayerRespawn(id, q.x, q.y, q.hp))])
        else s;
      assert r == RespawnFrom(order, next, draws, k + 1);
      RespawnAnnounces(order, next, draws, k + 1);
      RespawnRevives(order, next, draws, k + 1);
      assert id !in order[k + 1..] by {
        forall j | k + 1 <= j < |order| ensures order[j] != id { }
      }
      assert order[k..][1..] == order[k + 1..];
      DeadAgrees(order[k + 1..], next.players, s.players);
      var rest := Dead(order[k + 1..], s.players);
      if p.hp <= 0 {
        assert r.players[id] == q;
        assert Dead(order[k..], s.players) == [id] + rest;
        assert Announcements([id] + rest, r.players)
          == [Event(ToAll, PlayerRespawn(id, q.x, q.y, q.hp))] + Announcements(rest, r.players) by {
          assert ([id] + rest)[1..] == rest;
        }
      } else {
        assert Dead(order[k..], s.players) == rest;
      }
    }
  }

  // ---------------------------------------------------------------------------
  // The whole tick

  /** After a tick no player has hp <= 0 and none has more than 100; a player either keeps
      the row the bullet loop left (with only its hp lowered) or was respawned with
      hp 100 in the safe zone; and every bullet left lies inside the arena. */
  lemma TickAftermath(order: seq<Id>, s: TickState, draws: seq<Spot>)
    requires Table(order, s.players) && |order| <= |draws|
    requires forall k | 0 <= k < |draws| :: InSafeZone(draws[k])
    requires forall id | id in s.players :: s.players[id].hp <= FULL_HP
    ensures var r := Tick(order, s, draws);
      && r.players.Keys == s.players.Keys
      && (forall id | id in r.players :: 0 < r.players[id].hp <= FULL_HP)
      && (forall id | id in r.players ::
            Wounded(r.players[id], s.players[id])
            || (r.players[id].hp == FULL_HP && InSafeZone(Spot(r.players[id].x, r.players[id].y))))
      && (forall k | 0 <= k < |r.bullets| :: !OutOfArena(r.bullets[k]))
  {
    var swept := Sweep(order, s);
    SweepFromWounds(order, s, |s.bullets| - 1);
    SweepInArena(order, s);
    RespawnRevives(order, swept, draws, 0);
    var r := Tick(order, s, draws);
    forall id | id in r.players
      ensures 0 < r.players[id].hp <= FULL_HP
      ensures Wounded(r.players[id], s.players[id])
              || (r.players[id].hp == FULL_HP && InSafeZone(Spot(r.players[id].x, r.players[id].y)))
    {
      assert id in order;
      var j :| 0 <= j < |order| && order[j] == id;
      assert r.players[id] == Revived(swept.players[id], draws[j]);
      assert Wounded(swept.players[id], s.players[id]);
    }
  }

  /** The events one tick appends: the hits of the bullet loop, then one respawn
      announcement per dead player in join order. */
  lemma TickLog(order: seq<Id>, s: TickState, draws: seq<Spot>)
    requires Table(order, s.players) && |order| <= |draws|
    ensures var swept := Sweep(order, s);
      var r := Tick(order, s, draws);
      && |s.log| <= |swept.log|
      && r.log == swept.log + Announcements(Dead(order, swept.players), r.players)
      && r.log[..|s.log|] == s.log
      && (forall k | |s.log| <= k < |swept.log| :: r.log[k].to == ToAll && r.log[k].msg.PlayerHit?)
  {
    var swept := Sweep(order, s);
    SweepFromLogsHits(order, s, |s.bullets| - 1);
    RespawnAnnounces(order, swept, draws, 0);
    assert order[0..] == order;
  }

  // ---------------------------------------------------------------------------
  // The double splice on concrete values

  /** Two bullets: bullet 0 grazes player "b" at the left wall and leaves the arena;
      bullet 1 flies in the middle of the arena and hits nobody. The tick still loses
      bullet 1. */
  lemma TickLosesUntouchedBullet()
    ensures var victim := Player(5.0, 300.0, 0.0, 100, "B", "#3498db");
      var stray := Bullet(1.0, 300.0, -2.0, 0.0, "a");
      var clear := Bullet(400.0, 300.0, 0.0, 0.0, "a");
      var s := TickState(map["b" := victim], [stray, clear], []);
      && !OutOfArena(Moved(clear))
      && !Eligible(s.players, "b", Moved(clear))
      && Sweep(["b"], s).bullets == []
  {
    var victim := Player(5.0, 300.0, 0.0, 100, "B", "#3498db");
    var stray := Bullet(1.0, 300.0, -2.0, 0.0, "a");
    var clear := Bullet(400.0, 300.0, 0.0, 0.0, "a");
    var s := TickState(map["b" := victim], [stray, clear], []);
    var s1 := Step(["b"], s, 1);
    assert FirstTarget(["b"], s.players, Moved(clear), 0) == None by {
      assert !Eligible(s.players, "b", Moved(clear));
    }
    assert s1.bullets == [stray, Moved(clear)];
    assert FirstTarget(["b"], s1.players, Moved(stray), 0) == Some(0) by {
      assert Eligible(s1.players, "b", Moved(stray));
    }
    StepDoubleSplice(["b"], s1, 0);
    assert Step(["b"], s1, 0).bullets == [];
  }
}
