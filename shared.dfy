/** The values the arena server and the browser client share: player rows, bullets,
    and the messages of the replication protocol with the audience each one goes to. */
module Shared {

  datatype Option<T> = None | Some(value: T)

  /** A socket.io connection id; the server keys its player table by it. */
  type Id = string

  /** One row of the player table, on the server and in every client's mirror. */
  datatype Player = Player(x: real, y: real, angle: real, hp: int, name: string, color: string)

  /** A projectile in flight; `owner` is the connection that fired it. */
  datatype Bullet = Bullet(x: real, y: real, vx: real, vy: real, owner: Id)

  /** A point drawn at random for a spawn or a respawn. */
  datatype Spot = Spot(x: real, y: real)

  /** The spawn area `Math.random()*700+50` by `Math.random()*500+50`, as `Math.random()` lies in [0, 1). */
  predicate InSafeZone(p: Spot) {
    50.0 <= p.x < 750.0 && 50.0 <= p.y < 550.0
  }

  /** One step of a bullet, `b.x += b.vx; b.y += b.vy`: the server and the client advance bullets alike. */
  function Moved(b: Bullet): Bullet {
    b.(x := b.x + b.vx, y := b.y + b.vy)
  }

  /** `a.splice(i, 1)`: the element at index i goes and the later ones shift down by one;
      an index past the end removes nothing. */
  function Splice<T>(s: seq<T>, i: nat): (r: seq<T>)
    ensures |r| == if i < |s| then |s| - 1 else |s|
    ensures forall k | 0 <= k < i && k < |r| :: r[k] == s[k]
    ensures forall k | i <= k < |r| :: r[k] == s[k + 1]
  {
    if i < |s| then s[..i] + s[i + 1..] else s
  }

  /** Where a server emit goes: `socket.emit` reaches the sender only, `socket.broadcast.emit`
      every connection but the sender, `io.emit` every connection. */
  datatype Audience = ToSelf(id: Id) | ToOthers(id: Id) | ToAll

  predicate Reaches(a: Audience, conn: Id) {
    match a
    case ToSelf(id) => conn == id
    case ToOthers(id) => conn != id
    case ToAll => true
  }

  /** The server-to-client events, named as on the wire. */
  datatype Msg =
    | InitState(table: map<Id, Player>)                  // 'init-state'
    | PlayerJoined(id: Id, data: Player)                 // 'player-joined'
    | PlayerLeft(id: Id)                                 // 'player-left'
    | PlayerMoved(id: Id, x: real, y: real)              // 'player-moved'
    | PlayerRotated(id: Id, angle: real)                 // 'player-rotated'
    | BulletFired(bullet: Bullet)                        // 'bullet-fired'
    | PlayerHit(id: Id, hp: int)                         // 'player-hit'
    | PlayerRespawn(id: Id, x: real, y: real, hp: int)   // 'player-respawn'

  /** One entry of the server's outbound log: a message and who it is sent to. */
  datatype Event = Event(to: Audience, msg: Msg)

  /** The client-to-server messages the browser client sends. */
  datatype Request =
    | NewPlayer(x: real, y: real, name: string)          // 'new-player'
    | Move(x: real, y: real)                             // 'move'
    | Rotate(angle: real)                                // 'rotate'
    | Disconnect                                         // socket.disconnect()

  /** The messages of `log` that connection `conn` receives, in emit order. */
  function Inbox(conn: Id, log: seq<Event>): (r: seq<Msg>)
    ensures |r| <= |log|
  {
    if log == [] then []
    else (if Reaches(log[0].to, conn) then [log[0].msg] else []) + Inbox(conn, log[1..])
  }

  /** A single event reaches a connection or not. */
  lemma InboxOfOne(conn: Id, e: Event)
    ensures Inbox(conn, [e]) == if Reaches(e.to, conn) then [e.msg] else []
  {
    assert [e][1..] == [];
  }

  /** Every message a connection receives was logged for an audience that includes it. */
  lemma {:induction false} InboxSound(conn: Id, log: seq<Event>, k: nat)
    requires k < |Inbox(conn, log)|
    ensures exists j | 0 <= j < |log| :: Reaches(log[j].to, conn) && Inbox(conn, log)[k] == log[j].msg
  {
    var head := if Reaches(log[0].to, conn) then [log[0].msg] else [];
    if k < |head| {
      assert Inbox(conn, log)[k] == log[0].msg;
    } else {
      InboxSound(conn, log[1..], k - |head|);
      var j :| 0 <= j < |log[1..]| && Reaches(log[1..][j].to, conn) && Inbox(conn, log[1..])[k - |head|] == log[1..][j].msg;
      assert log[j + 1] == log[1..][j];
    }
  }

  lemma {:induction false} InboxAppend(conn: Id, a: seq<Event>, b: seq<Event>)
    ensures Inbox(conn, a + b) == Inbox(conn, a) + Inbox(conn, b)
  {
    if a == [] {
      assert a + b == b;
    } else {
      var head := if Reaches(a[0].to, conn) then [a[0].msg] else [];
      assert (a + b)[0] == a[0];
      assert (a + b)[1..] == a[1..] + b;
      calc {
        Inbox(conn, a + b);
        head + Inbox(conn, a[1..] + b);
        { InboxAppend(conn, a[1..], b); }
        head + (Inbox(conn, a[1..]) + Inbox(conn, b));
        (head + Inbox(conn, a[1..])) + Inbox(conn, b);
        Inbox(conn, a) + Inbox(conn, b);
      }
    }
  }

  /** An event that reaches a connection is received exactly where it stands in the
      log: after what came before it and before what comes after. */
  lemma InboxSplitAt(conn: Id, log: seq<Event>, j: nat)
    requires j < |log| && Reaches(log[j].to, conn)
    ensures Inbox(conn, log) == Inbox(conn, log[..j]) + [log[j].msg] + Inbox(conn, log[j + 1..])
  {
    assert log == log[..j] + ([log[j]] + log[j + 1..]);
    InboxAppend(conn, log[..j], [log[j]] + log[j + 1..]);
    InboxAppend(conn, [log[j]], log[j + 1..]);
    InboxOfOne(conn, log[j]);
  }

  /** Two events that reach a connection are received in log order. */
  lemma InboxKeepsOrder(conn: Id, log: seq<Event>, a: nat, b: nat)
    requires a < b < |log| && Reaches(log[a].to, conn) && Reaches(log[b].to, conn)
    ensures Inbox(conn, log) == Inbox(conn, log[..b]) + [log[b].msg] + Inbox(conn, log[b + 1..])
    ensures Inbox(conn, log[..b]) == Inbox(conn, log[..a]) + [log[a].msg] + Inbox(conn, log[a + 1..b])
  {
    InboxSplitAt(conn, log, b);
    InboxSplitAt(conn, log[..b], a);
    assert log[..b][..a] == log[..a];
    assert log[..b][a + 1..] == log[a + 1..b];
    assert log[..b][a] == log[a];
  }

  /** Broadcasts to all reach every connection: the inbox is the messages themselves. */
  lemma {:induction false} InboxOfBroadcasts(conn: Id, log: seq<Event>)
    requires forall k | 0 <= k < |log| :: log[k].to == ToAll
    ensures |Inbox(conn, log)| == |log|
    ensures forall k | 0 <= k < |log| :: Inbox(conn, log)[k] == log[k].msg
  {
    if log != [] {
      InboxOfBroadcasts(conn, log[1..]);
    }
  }
}
