/** The authoritative server of server.js: the player table and the bullet array it
    mutates in place, the five socket handlers, and the 30 ms tick. Every emit is
    appended to `log` with its audience. */
module Server {
  import opened Shared
  import opened Arena

  /** The colours `randomColor()` picks from. */
  const PALETTE: seq<string> := ["#e74c3c", "#3498db", "#2ecc71", "#f1c40f", "#9b59b6", "#e67e22", "#1abc9c"]

  /** The name a player gets when it sends none: `Player-` and the first four
      characters of its connection id (all of them when the id is shorter). */
  function DefaultName(id: Id): (r: string)
    ensures |r| == 7 + (if |id| < 4 then |id| else 4)
    ensures r[..7] == "Player-"
    ensures r[7..] <= id
  {
    "Player-" + id[..if |id| < 4 then |id| else 4]
  }

  /** `order` without `id`; the others keep their relative order. */
  function Without(order: seq<Id>, id: Id): (r: seq<Id>)
    ensures forall k | 0 <= k < |r| :: r[k] != id && r[k] in order
    ensures forall x | x in order && x != id :: x in r
    ensures Distinct(order) ==> Distinct(r)
  {
    if order == [] then []
    else if order[0] == id then Without(order[1..], id)
    else
      var rest := Without(order[1..], id);
      assert Distinct(order) ==> order[0] !in rest by {
        if Distinct(order) {
          assert forall k | 0 < k < |order| :: order[k] != order[0];
          assert Distinct(order[1..]);
        }
      }
      [order[0]] + rest
  }

  lemma {:induction false} WithoutAppend(a: seq<Id>, c: seq<Id>, id: Id)
    ensures Without(a + c, id) == Without(a, id) + Without(c, id)
  {
    if a == [] {
      assert a + c == c;
    } else {
      assert (a + c)[0] == a[0];
      assert (a + c)[1..] == a[1..] + c;
      WithoutAppend(a[1..], c, id);
    }
  }

  /** Deleting a player keeps the join order of the others: for two remaining ids at
      positions a < b, the one at a lands in the part before the one at b. */
  lemma WithoutKeepsOrder(order: seq<Id>, id: Id, a: nat, b: nat)
    requires a < b < |order| && order[a] != id && order[b] != id
    ensures Without(order, id) == Without(order[..b], id) + [order[b]] + Without(order[b + 1..], id)
    ensures order[a] in Without(order[..b], id)
  {
    assert order == order[..b] + ([order[b]] + order[b + 1..]);
    WithoutAppend(order[..b], [order[b]] + order[b + 1..], id);
    assert ([order[b]] + order[b + 1..])[1..] == order[b + 1..];
    assert order[a] in order[..b] by {
      assert order[..b][a] == order[a];
    }
  }

  class World {
    var order: seq<Id>              // the keys of `players` in insertion order
    var players: map<Id, Player>
    var bullets: seq<Bullet>
    var log: seq<Event>             // every emit, with its audience

    /** The table is well formed and, between handlers and ticks, every player is alive
        with at most full hp. */
    ghost predicate Valid()
      reads this
    {
      && Table(order, players)
      && forall id | id in players :: 0 < players[id].hp <= FULL_HP
    }

    function State(): TickState
      reads this
    {
      TickState(players, bullets, log)
    }

    constructor()
      ensures Valid()
      ensures order == [] && players == map[] && bullets == [] && log == []
    {
      order, players, bullets, log := [], map[], [], [];
    }

    /** 'new-player': the row for `id` is set, replacing any earlier one in place; the
        joiner gets 'init-state' with the whole table and the others 'player-joined'.
        An empty `name` or `color` stands for a missing one; `pick` is the draw of
        `randomColor()`. */
    method NewPlayer(id: Id, x: real, y: real, name: string, color: string, pick: nat)
      requires Valid() && pick < |PALETTE|
      modifies this
      ensures Valid()
      ensures var p := Player(x, y, 0.0, FULL_HP,
                              if name == "" then DefaultName(id) else name,
                              if color == "" then PALETTE[pick] else color);
        && players == old(players)[id := p]
        && order == (if id in old(players) then old(order) else old(order) + [id])
        && bullets == old(bullets)
        && log == old(log) + [Event(ToSelf(id), InitState(players)), Event(ToOthers(id), PlayerJoined(id, p))]
    {
      var c := if color != "" then color else PALETTE[pick];
      var n := if name != "" then name else DefaultName(id);
      if id !in players {
        order := order + [id];
      }
      players := players[id := Player(x, y, 0.0, FULL_HP, n, c)];
      log := log + [Event(ToSelf(id), InitState(players))];
      log := log + [Event(ToOthers(id), PlayerJoined(id, players[id]))];
    }

    /** 'move': a known player's position is overwritten as reported, unchecked, and
        'player-moved' goes to the others; an unknown id changes nothing. */
    method Move(id: Id, x: real, y: real)
      requires Valid()
      modifies this
      ensures Valid()
      ensures order == old(order) && bullets == old(bullets)
      ensures id in old(players) ==>
        && players == old(players)[id := old(players)[id].(x := x, y := y)]
        && log == old(log) + [Event(ToOthers(id), PlayerMoved(id, x, y))]
      ensures id !in old(players) ==> players == old(players) && log == old(log)
    {
      if id in players {
        var p := players[id];
        p := p.(x := x);
        p := p.(y := y);
        players := players[id := p];
        log := log + [Event(ToOthers(id), PlayerMoved(id, x, y))];
      }
    }

    /** 'rotate': a known player's angle is overwritten and 'player-rotated' goes to
        the others; an unknown id changes nothing. */
    method Rotate(id: Id, angle: real)
      requires Valid()
      modifies this
      ensures Valid()
      ensures order == old(order) && bullets == old(bullets)
      ensures id in old(players) ==>
        && players == old(players)[id := old(players)[id].(angle := angle)]
        && log == old(log) + [Event(ToOthers(id), PlayerRotated(id, angle))]
      ensures id !in old(players) ==> players == old(players) && log == old(log)
    {
      if id in players {
        players := players[id := players[id].(angle := angle)];
        log := log + [Event(ToOthers(id), PlayerRotated(id, angle))];
      }
    }

    /** 'shoot': one bullet owned by the sender is appended, whether or not the sender
        ever joined, and 'bullet-fired' goes to all. */
    method Shoot(id: Id, x: real, y: real, vx: real, vy: real)
      requires Valid()
      modifies this
      ensures Valid()
      ensures order == old(order) && players == old(players)
      ensures bullets == old(bullets) + [Bullet(x, y, vx, vy, id)]
      ensures log == old(log) + [Event(ToAll, BulletFired(Bullet(x, y, vx, vy, id)))]
    {
      bullets := bullets + [Bullet(x, y, vx, vy, id)];
      log := log + [Event(ToAll, BulletFired(Bullet(x, y, vx, vy, id)))];
    }

    /** 'disconnect': the row for `id` is deleted, if there is one, and 'player-left'
        goes to the others in every case. */
    method Disconnect(id: Id)
      requires Valid()
      modifies this
      ensures Valid()
      ensures players == old(players) - {id}
      ensures order == Without(old(order), id)
      ensures bullets == old(bullets)
      ensures log == old(log) + [Event(ToOthers(id), PlayerLeft(id))]
    {
      players := players - {id};
      order := Without(order, id);
      log := log + [Event(ToOthers(id), PlayerLeft(id))];
    }

    /** The 30 ms tick: the bullet loop, then the respawn loop. `draws[k]` is the
        position that `Math.random()` gives the k-th player in join order if it
        respawns. */
    method Tick(draws: seq<Spot>)
      requires Valid()
      requires |order| <= |draws| && forall k | 0 <= k < |draws| :: InSafeZone(draws[k])
      modifies this`players, this`bullets, this`log
      ensures Valid()
      ensures State() == Arena.Tick(order, old(State()), draws)
      ensures forall k | 0 <= k < |bullets| :: !OutOfArena(bullets[k])
    {
      ghost var start := State();
      SweepBullets();
      RespawnDead(draws);
      TickAftermath(order, start, draws);
    }

    /** `for (let i = bullets.length - 1; i >= 0; i--)`. */
    method SweepBullets()
      requires Covers(order, players)
      modifies this`players, this`bullets, this`log
      ensures State() == Sweep(order, old(State()))
    {
      ghost var swept := Sweep(order, State());
      var i := |bullets| - 1;
      while i >= 0
        invariant -1 <= i < |bullets|
        invariant Covers(order, players)
        invariant SweepFrom(order, State(), i) == swept
      {
        StepBullet(i);
        i := i - 1;
      }
    }

    /** One pass of the bullet loop on index i: advance, scan the players in join
        order for the first one within reach, then the bounds test. */
    method StepBullet(i: nat)
      requires i < |bullets|
      requires Covers(order, players)
      modifies this`players, this`bullets, this`log
      ensures State() == Step(order, old(State()), i)
    {
      var b := bullets[i];
      b := b.(x := b.x + b.vx);
      b := b.(y := b.y + b.vy);
      assert b == Moved(old(bullets)[i]);
      bullets := bullets[i := b];
      var k := 0;
      while k < |order|
        invariant 0 <= k <= |order|
        invariant players == old(players) && log == old(log)
        invariant bullets == old(bullets)[i := b]
        invariant FirstTarget(order, players, b, k) == FirstTarget(order, players, b, 0)
      {
        var id := order[k];
        if id != b.owner {
          var p := players[id];
          var dx := p.x - b.x;
          var dy := p.y - b.y;
          if Close(dx, dy) {
            assert FirstTarget(order, old(players), b, 0) == Some(k);
            p := p.(hp := p.hp - DAMAGE);
            players := players[id := p];
            log := log + [Event(ToAll, PlayerHit(id, p.hp))];
            bullets := Splice(bullets, i);
            break;
          }
        }
        k := k + 1;
      }
      assert State() == Scanned(order, old(State()), i);
      if b.x < 0.0 || b.x > ARENA_WIDTH || b.y < 0.0 || b.y > ARENA_HEIGHT {
        bullets := Splice(bullets, i);
      }
    }

    /** `for (const id in players) if (players[id].hp <= 0) { ... }`. */
    method RespawnDead(draws: seq<Spot>)
      requires Covers(order, players) && |order| <= |draws|
      modifies this`players, this`log
      ensures State() == RespawnFrom(order, old(State()), draws, 0)
    {
      ghost var target := RespawnFrom(order, State(), draws, 0);
      var k := 0;
      while k < |order|
        invariant 0 <= k <= |order|
        invariant Covers(order, players)
        invariant RespawnFrom(order, State(), draws, k) == target
      {
        var id := order[k];
        if players[id].hp <= 0 {
          var p := players[id];
          p := p.(hp := FULL_HP);
          p := p.(x := draws[k].x);
          p := p.(y := draws[k].y);
          players := players[id := p];
          log := log + [Event(ToAll, PlayerRespawn(id, p.x, p.y, p.hp))];
        }
        k := k + 1;
      }
    }
  }
}
