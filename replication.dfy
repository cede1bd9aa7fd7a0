/** The server and a client together: every event the server logs, delivered to a
    client whose mirror equals the server's table, leaves the mirror equal to the new
    table. For the mover's own client, which is not sent its own 'player-moved' or
    'player-rotated', the local step that preceded the request does the same. */
module Replication {
  import opened Shared
  import opened Arena
  import Server
  import opened ClientView

  /** What connection `conn` learns from the part of `log` past its first `from` entries. */
  function Delivered(v: Mirror, log: seq<Event>, from: nat, conn: Id): Mirror
    requires from <= |log|
  {
    ApplyAll(v, Inbox(conn, log[from..]), conn)
  }

  /** Log `r` extends log `s`. */
  predicate Extends(r: seq<Event>, s: seq<Event>) {
    |s| <= |r| && r[..|s|] == s
  }

  /** Two deliveries in a row are one delivery of the joined stretch of the log. */
  lemma DeliveredTwice(v: Mirror, a: seq<Event>, b: seq<Event>, c: seq<Event>, conn: Id)
    requires Extends(b, a) && Extends(c, b)
    ensures Delivered(Delivered(v, b, |a|, conn), c, |b|, conn) == Delivered(v, c, |a|, conn)
  {
    assert c[|a|..] == b[|a|..] + c[|b|..] by {
      assert c[..|b|] == b;
    }
    InboxAppend(conn, b[|a|..], c[|b|..]);
    ApplyAllAppend(v, Inbox(conn, b[|a|..]), Inbox(conn, c[|b|..]), conn);
  }

  // ---------------------------------------------------------------------------
  // The tick

  /** A mirror equal to the table before one pass of the bullet loop equals it after,
      once the pass's 'player-hit', if any, is delivered. */
  lemma StepMirrored(order: seq<Id>, s: TickState, i: nat, v: Mirror, conn: Id)
    requires i < |s.bullets|
    requires v.players == s.players
    ensures var r := Step(order, s, i);
      Extends(r.log, s.log) && Delivered(v, r.log, |s.log|, conn).players == r.players
  {
    var r := Step(order, s, i);
    var b := Moved(s.bullets[i]);
    var hit := FirstTarget(order, s.players, b, 0);
    if hit.Some? {
      var id := order[hit.value];
      var m := PlayerHit(id, s.players[id].hp - DAMAGE);
      assert r.log == s.log + [Event(ToAll, m)];
      assert r.log[|s.log|..] == [Event(ToAll, m)];
      assert Inbox(conn, [Event(ToAll, m)]) == [m];
      assert ApplyAll(v, [m], conn) == Apply(v, m, conn);
    } else {
      assert r.log[|s.log|..] == [];
    }
  }

  lemma {:induction false} SweepFromMirrored(order: seq<Id>, s: TickState, i: int, v: Mirror, conn: Id)
    requires i < |s.bullets|
    requires v.players == s.players
    ensures var r := SweepFrom(order, s, i);
      Extends(r.log, s.log) && Delivered(v, r.log, |s.log|, conn).players == r.players
    decreases i + 1
  {
    if i < 0 {
      assert s.log[|s.log|..] == [];
    } else {
      var next := Step(order, s, i);
      StepMirrored(order, s, i, v, conn);
      var v1 := Delivered(v, next.log, |s.log|, conn);
      SweepFromMirrored(order, next, i - 1, v1, conn);
      var r := SweepFrom(order, next, i - 1);
      assert r.log[..|s.log|] == r.log[..|next.log|][..|s.log|];
      DeliveredTwice(v, s.log, next.log, r.log, conn);
    }
  }

  /** The same for the respawn loop and its 'player-respawn' announcements. */
  lemma {:induction false} RespawnFromMirrored(order: seq<Id>, s: TickState, draws: seq<Spot>, k: nat, v: Mirror, conn: Id)
    requires k <= |order| <= |draws|
    requires Covers(order, s.players)
    requires v.players == s.players
    ensures var r := RespawnFrom(order, s, draws, k);
      Extends(r.log, s.log) && Delivered(v, r.log, |s.log|, conn).players == r.players
    decreases |order| - k
  {
    if k == |order| {
      assert s.log[|s.log|..] == [];
    } else {
      var id := order[k];
      var p := s.players[id];
      var q := p.(hp := FULL_HP, x := draws[k].x, y := draws[k].y);
      var m := PlayerRespawn(id, q.x, q.y, q.hp);
      var next :=
        if p.hp <= 0 then s.(players := s.players[id := q], log := s.log + [Event(ToAll, m)])
        else s;
      assert RespawnFrom(order, s, draws, k) == RespawnFrom(order, next, draws, k + 1);
      var v1 := Delivered(v, next.log, |s.log|, conn);
      if p.hp <= 0 {
        assert next.log[|s.log|..] == [Event(ToAll, m)];
        assert Inbox(conn, [Event(ToAll, m)]) == [m];
        assert ApplyAll(v, [m], conn) == Apply(v, m, conn);
      } else {
        assert next.log[|s.log|..] == [];
      }
      assert v1.players == next.players;
      RespawnFromMirrored(order, next, draws, k + 1, v1, conn);
      var r := RespawnFrom(order, next, draws, k + 1);
      assert r.log[..|s.log|] == r.log[..|next.log|][..|s.log|];
      DeliveredTwice(v, s.log, next.log, r.log, conn);
    }
  }

  /** A client whose mirror equals the table before a tick equals it after, once the
      tick's events are delivered: every change the tick makes to a player is announced
      to all, with the new values. */
  lemma TickMirrored(order: seq<Id>, s: TickState, draws: seq<Spot>, v: Mirror, conn: Id)
    requires Covers(order, s.players) && |order| <= |draws|
    requires v.players == s.players
    ensures var r := Tick(order, s, draws);
      Extends(r.log, s.log) && Delivered(v, r.log, |s.log|, conn).players == r.players
  {
    var swept := Sweep(order, s);
    SweepFromMirrored(order, s, |s.bullets| - 1, v, conn);
    var v1 := Delivered(v, swept.log, |s.log|, conn);
    RespawnFromMirrored(order, swept, draws, 0, v1, conn);
    var r := Tick(order, s, draws);
    assert r.log[..|s.log|] == r.log[..|swept.log|][..|s.log|];
    DeliveredTwice(v, s.log, swept.log, r.log, conn);
  }

  /** `Object.assign` of a table over a mirror whose ids it all holds gives the table. */
  lemma MergeCovered(mirror: map<Id, Player>, table: map<Id, Player>)
    requires mirror.Keys <= table.Keys
    ensures mirror + table == table
  {
  }

  // ---------------------------------------------------------------------------
  // One handler, then delivery

  /** A mover's 'move': every other client with an equal mirror ends equal to the server. */
  method RelayMove(w: Server.World, c: Client, id: Id, x: real, y: real)
    requires w.Valid() && c.Valid()
    requires c.players == w.players && c.connId != id
    modifies w, c
    ensures w.Valid() && c.Valid()
    ensures c.players == w.players
    ensures id in w.players ==> c.players[id].x == x && c.players[id].y == y
  {
    var n := |w.log|;
    w.Move(id, x, y);
    assert w.log[n..] == [] || w.log[n..] == [Event(ToOthers(id), PlayerMoved(id, x, y))];
    c.CatchUp(w.log[n..]);
  }

  /** A 'rotate': every other client with an equal mirror ends equal to the server. */
  method RelayRotate(w: Server.World, c: Client, id: Id, angle: real)
    requires w.Valid() && c.Valid()
    requires c.players == w.players && c.connId != id
    modifies w, c
    ensures w.Valid() && c.Valid()
    ensures c.players == w.players
    ensures id in w.players ==> c.players[id].angle == angle
  {
    var n := |w.log|;
    w.Rotate(id, angle);
    assert w.log[n..] == [] || w.log[n..] == [Event(ToOthers(id), PlayerRotated(id, angle))];
    c.CatchUp(w.log[n..]);
  }

  /** A 'new-player' seen by another client: the joiner's row is inserted as the server holds it. */
  method RelayJoinToOther(w: Server.World, o: Client, id: Id, x: real, y: real, name: string, pick: nat)
    requires w.Valid() && o.Valid() && pick < |Server.PALETTE|
    requires o.players == w.players && o.connId != id
    modifies w, o
    ensures w.Valid() && o.Valid()
    ensures o.players == w.players && id in o.players
  {
    var n := |w.log|;
    w.NewPlayer(id, x, y, name, "", pick);
    var e0 := Event(ToSelf(id), InitState(w.players));
    var e1 := Event(ToOthers(id), PlayerJoined(id, w.players[id]));
    assert w.log[n..] == [e0, e1];
    assert Inbox(o.connId, [e0, e1]) == [e1.msg] by {
      assert [e0, e1][1..] == [e1];
      assert [e0, e1][1..][1..] == [];
    }
    o.CatchUp(w.log[n..]);
  }

  /** The joiner's own flow: the join button, the server's 'new-player', then delivery of
      'init-state'. The client learns its id, holds the server's table, and its row
      carries the requested name and the drawn spawn point. */
  method RelayOwnJoin(w: Server.World, c: Client, spawn: Spot, input: string, pick: nat)
    requires w.Valid() && c.Valid() && pick < |Server.PALETTE|
    requires c.myId.None? && c.players.Keys <= w.players.Keys
    modifies w, c
    ensures w.Valid() && c.Valid()
    ensures c.myId == Some(c.connId) && c.players == w.players
    ensures c.connId in w.players
    ensures var me := w.players[c.connId];
      me.name == RequestedName(input) && me.x == spawn.x && me.y == spawn.y && me.hp == FULL_HP
  {
    var k := |c.outbox|;
    c.Join(spawn, input);
    assert c.outbox[k] == NewPlayer(spawn.x, spawn.y, RequestedName(input));
    var req := c.outbox[k];
    var n := |w.log|;
    w.NewPlayer(c.connId, req.x, req.y, req.name, "", pick);
    ghost var table := w.players;
    MergeCovered(c.players, table);
    var e0 := Event(ToSelf(c.connId), InitState(table));
    var e1 := Event(ToOthers(c.connId), PlayerJoined(c.connId, table[c.connId]));
    assert w.log[n..] == [e0, e1];
    assert Inbox(c.connId, [e0, e1]) == [e0.msg] by {
      assert [e0, e1][1..] == [e1];
      assert [e0, e1][1..][1..] == [];
    }
    assert ApplyAll(c.View(), [e0.msg], c.connId) == Apply(c.View(), e0.msg, c.connId);
    c.CatchUp(w.log[n..]);
  }

  /** A leaver disconnects; every other client with an equal mirror drops the row as the server does. */
  method RelayLeave(w: Server.World, c: Client, o: Client)
    requires w.Valid() && c.Valid() && o.Valid() && c != o
    requires o.players == w.players && o.connId != c.connId
    modifies w, c, o
    ensures w.Valid() && c.Valid() && o.Valid()
    ensures o.players == w.players && c.connId !in w.players
    ensures old(c.myId).Some? ==> c.myId.None? && c.players == map[]
  {
    c.Leave();
    var n := |w.log|;
    w.Disconnect(c.connId);
    assert w.log[n..] == [Event(ToOthers(c.connId), PlayerLeft(c.connId))];
    o.CatchUp(w.log[n..]);
  }

  /** A 'shoot' reaches every client, the shooter's included, as the bullet the server appended. */
  method RelayShoot(w: Server.World, c: Client, id: Id, x: real, y: real, vx: real, vy: real)
    requires w.Valid() && c.Valid()
    modifies w, c
    ensures w.Valid() && c.Valid()
    ensures c.players == old(c.players)
    ensures |w.bullets| == |old(w.bullets)| + 1
    ensures c.bullets == old(c.bullets) + [w.bullets[|w.bullets| - 1]]
    ensures w.bullets[|w.bullets| - 1] == Bullet(x, y, vx, vy, id)
  {
    var n := |w.log|;
    w.Shoot(id, x, y, vx, vy);
    var e := Event(ToAll, BulletFired(Bullet(x, y, vx, vy, id)));
    assert w.log[n..] == [e];
    assert Inbox(c.connId, [e]) == [e.msg];
    c.CatchUp(w.log[n..]);
  }

  /** A tick, then delivery: a client with an equal mirror holds the server's table again. */
  method RelayTick(w: Server.World, c: Client, draws: seq<Spot>)
    requires w.Valid() && c.Valid()
    requires |w.order| <= |draws| && forall k | 0 <= k < |draws| :: InSafeZone(draws[k])
    requires c.players == w.players
    modifies w, c
    ensures w.Valid() && c.Valid()
    ensures c.players == w.players
  {
    var n := |w.log|;
    ghost var s := w.State();
    ghost var v := c.View();
    w.Tick(draws);
    TickMirrored(w.order, s, draws, v, c.connId);
    c.CatchUp(w.log[n..]);
  }

  /** One frame of the own client: the local steering step, then the server's 'move'
      handler on the request it sent, if any. Client and server agree on the own row
      again, and it lies inside the clamp. */
  method LocalMove(w: Server.World, c: Client, held: set<string>)
    requires w.Valid() && c.Valid()
    requires c.myId == Some(c.connId) && c.players == w.players && c.connId in c.players
    requires var me := c.players[c.connId]; MIN_X <= me.x <= MAX_X && MIN_Y <= me.y <= MAX_Y
    modifies w, c
    ensures w.Valid()
    ensures c.players == w.players
    ensures c.connId in w.players
    ensures var me := w.players[c.connId]; MIN_X <= me.x <= MAX_X && MIN_Y <= me.y <= MAX_Y
  {
    var k := |c.outbox|;
    c.Update(held);
    if |c.outbox| > k {
      var req := c.outbox[k];
      w.Move(c.connId, req.x, req.y);
    }
  }

  /** The own aim handler, then the server's 'rotate' on the request it sent, if any. */
  method LocalAim(w: Server.World, c: Client, angle: real)
    requires w.Valid() && c.Valid()
    requires c.players == w.players
    modifies w, c
    ensures w.Valid()
    ensures c.players == w.players
  {
    var k := |c.outbox|;
    c.Aim(angle);
    if |c.outbox| > k {
      assert c.myId.Some? && c.outbox[k] == Rotate(angle);
      w.Rotate(c.myId.value, angle);
    }
  }
}
