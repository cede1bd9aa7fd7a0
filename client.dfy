/** The browser client of public/main.js: a mirror of the server's player table and
    bullets kept up to date from the server's events, the local steering step with its
    clamp, the client-side bullet cull, and the join and leave actions. What the client
    sends is appended to `outbox`. */
module ClientView {
  import opened Shared

  const STEP: real := 3.0           // units per held key and frame
  const MIN_X: real := 15.0
  const MAX_X: real := 785.0
  const MIN_Y: real := 15.0
  const MAX_Y: real := 585.0

  // ---------------------------------------------------------------------------
  // The requested name

  /** The characters `String.prototype.trim` removes: the white space and line
      terminators of ECMAScript. */
  predicate IsSpace(c: char) {
    var n := c as int;
    || 0x09 <= n <= 0x0D || n == 0x20 || n == 0xA0 || n == 0x1680
    || 0x2000 <= n <= 0x200A || n == 0x2028 || n == 0x2029 || n == 0x202F
    || n == 0x205F || n == 0x3000 || n == 0xFEFF
  }

  /** How many white-space characters `s` starts with. */
  function Lead(s: string): (n: nat)
    ensures n <= |s|
    ensures forall k | 0 <= k < n :: IsSpace(s[k])
    ensures n == |s| || !IsSpace(s[n])
  {
    if s != [] && IsSpace(s[0]) then 1 + Lead(s[1..]) else 0
  }

  /** How long `s` is without the white space it ends with. */
  function Kept(s: string): (n: nat)
    ensures n <= |s|
    ensures forall k | n <= k < |s| :: IsSpace(s[k])
    ensures n == 0 || !IsSpace(s[n - 1])
  {
    if s != [] && IsSpace(s[|s| - 1]) then Kept(s[..|s| - 1]) else |s|
  }

  /** `s.trim()`: the run of `s` between its leading and its trailing white space. */
  function Trim(s: string): (r: string)
    ensures r == [] || (!IsSpace(r[0]) && !IsSpace(r[|r| - 1]))
    ensures r == [] <==> forall k | 0 <= k < |s| :: IsSpace(s[k])
  {
    var t := s[Lead(s)..];
    var r := t[..Kept(t)];
    assert r != [] ==> !IsSpace(s[Lead(s)]);
    r
  }

  /** Trim removes white space only: what it keeps is a slice of `s`, with nothing but
      white space before and after it. */
  lemma TrimIsInfix(s: string)
    ensures var i := Lead(s);
      && i + |Trim(s)| <= |s| && Trim(s) == s[i..i + |Trim(s)|]
      && forall k | 0 <= k < |s| && !(i <= k < i + |Trim(s)|) :: IsSpace(s[k])
  {
    var i := Lead(s);
    var t := s[i..];
    var n := Kept(t);
    assert Trim(s) == t[..n];
    forall k | i + n <= k < |s|
      ensures IsSpace(s[k])
    {
      assert s[k] == t[k - i];
    }
  }

  lemma TrimIdempotent(s: string)
    ensures Trim(Trim(s)) == Trim(s)
  {
    var r := Trim(s);
    if r != [] {
      assert Lead(r) == 0;
      assert r[0..] == r;
      assert Kept(r) == |r|;
      assert r[..|r|] == r;
    }
  }

  /** `nameInput.value.trim() || "Player"`: never empty. */
  function RequestedName(input: string): (r: string)
    ensures r != []
    ensures r == "Player" || (!IsSpace(r[0]) && !IsSpace(r[|r| - 1]))
    ensures Trim(input) != [] ==> r == Trim(input)
  {
    var t := Trim(input);
    if t == [] then "Player" else t
  }

  /** A blank input asks for the name "Player". */
  lemma RequestedNameOfBlank(input: string)
    requires forall k | 0 <= k < |input| :: IsSpace(input[k])
    ensures RequestedName(input) == "Player"
  {
  }

  // ---------------------------------------------------------------------------
  // Steering

  /** `Math.max(lo, Math.min(hi, v))`. */
  function Clamp(v: real, lo: real, hi: real): (r: real)
    requires lo <= hi
    ensures lo <= r <= hi
    ensures lo <= v <= hi ==> r == v
    ensures v < lo ==> r == lo
    ensures hi < v ==> r == hi
  {
    if v > hi then hi else if v < lo then lo else v
  }

  /** At least one of the steering keys is held. */
  predicate Pressed(held: set<string>) {
    "w" in held || "s" in held || "a" in held || "d" in held
  }

  /** The net shift of one frame along an axis: -3 for the `less` key, +3 for the
      `more` key, both when both are held. */
  function Shift(held: set<string>, less: string, more: string): real {
    (if more in held then STEP else 0.0) - (if less in held then STEP else 0.0)
  }

  /** Where the local player ends one frame of `update()` that starts at (x, y). */
  function Steer(x: real, y: real, held: set<string>): (r: Spot)
    ensures MIN_X <= r.x <= MAX_X && MIN_Y <= r.y <= MAX_Y
    ensures !Pressed(held) && MIN_X <= x <= MAX_X && MIN_Y <= y <= MAX_Y ==> r == Spot(x, y)
  {
    Spot(Clamp(x + Shift(held, "a", "d"), MIN_X, MAX_X), Clamp(y + Shift(held, "w", "s"), MIN_Y, MAX_Y))
  }

  /** One held key moves the player by 3 units along its axis, unless that would cross
      the clamp. */
  lemma SteerOneKey(x: real, y: real, key: string)
    requires key in {"w", "s", "a", "d"}
    requires MIN_X + STEP <= x <= MAX_X - STEP && MIN_Y + STEP <= y <= MAX_Y - STEP
    ensures var r := Steer(x, y, {key});
      && r.x == (if key == "a" then x - STEP else if key == "d" then x + STEP else x)
      && r.y == (if key == "w" then y - STEP else if key == "s" then y + STEP else y)
  {
  }

  /** With no steering key held a frame only clamps. */
  lemma SteerNotHeldStaysPut(x: real, y: real, held: set<string>)
    requires !Pressed(held)
    ensures Steer(x, y, held) == Spot(Clamp(x, MIN_X, MAX_X), Clamp(y, MIN_Y, MAX_Y))
  {
  }

  // ---------------------------------------------------------------------------
  // The client bullet loop

  /** The test of public/main.js:94 fails: the bullet is on the canvas. */
  predicate OnCanvas(b: Bullet, width: real, height: real) {
    !(b.x < 0.0 || b.x > width || b.y < 0.0 || b.y > height)
  }

  /** Every bullet advanced once, kept in order exactly when it is still on the canvas. */
  function Culled(bs: seq<Bullet>, width: real, height: real): (r: seq<Bullet>)
    ensures |r| <= |bs|
    ensures forall k | 0 <= k < |r| :: OnCanvas(r[k], width, height)
  {
    if bs == [] then []
    else
      var b := Moved(bs[0]);
      (if OnCanvas(b, width, height) then [b] else []) + Culled(bs[1..], width, height)
  }

  lemma {:induction false} CulledAppend(a: seq<Bullet>, c: seq<Bullet>, width: real, height: real)
    ensures Culled(a + c, width, height) == Culled(a, width, height) + Culled(c, width, height)
  {
    if a == [] {
      assert a + c == c;
    } else {
      assert (a + c)[0] == a[0];
      assert (a + c)[1..] == a[1..] + c;
      CulledAppend(a[1..], c, width, height);
    }
  }

  /** When every advanced bullet stays on the canvas, the cull only advances: each
      bullet is kept, at its index, moved by its velocity. */
  lemma {:induction false} CulledKeepsAll(bs: seq<Bullet>, width: real, height: real)
    requires forall k | 0 <= k < |bs| :: OnCanvas(Moved(bs[k]), width, height)
    ensures |Culled(bs, width, height)| == |bs|
    ensures forall k | 0 <= k < |bs| :: Culled(bs, width, height)[k] == Moved(bs[k])
  {
    if bs != [] {
      CulledKeepsAll(bs[1..], width, height);
    }
  }

  /** A bullet whose advanced position is off the canvas never survives the cull. */
  lemma {:induction false} CulledDropsOff(bs: seq<Bullet>, width: real, height: real, b: Bullet)
    requires b in bs && !OnCanvas(Moved(b), width, height)
    ensures forall k | 0 <= k < |Culled(bs, width, height)| :: Culled(bs, width, height)[k] != Moved(b)
  {
  }

  /** One pass of the client bullet loop on index i moves bullet i from the unprocessed
      prefix to the culled suffix. */
  lemma CullStep(was: seq<Bullet>, i: nat, width: real, height: real)
    requires i < |was|
    ensures var b := Moved(was[i]);
      var cur := (was[..i + 1] + Culled(was[i + 1..], width, height))[i := b];
      (if OnCanvas(b, width, height) then cur else Splice(cur, i)) == was[..i] + Culled(was[i..], width, height)
  {
    var b := Moved(was[i]);
    var rest := Culled(was[i + 1..], width, height);
    assert was[i..] == [was[i]] + was[i + 1..];
    assert was[i..][1..] == was[i + 1..];
    assert Culled(was[i..], width, height) == (if OnCanvas(b, width, height) then [b] else []) + rest;
    var cur := (was[..i + 1] + rest)[i := b];
    assert cur == was[..i] + [b] + rest;
    if !OnCanvas(b, width, height) {
      assert Splice(cur, i) == cur[..i] + cur[i + 1..];
      assert cur[..i] == was[..i];
      assert cur[i + 1..] == rest;
    }
  }

  // ---------------------------------------------------------------------------
  // The mirror

  /** What the client knows: its own id once 'init-state' arrived, the table, the bullets. */
  datatype Mirror = Mirror(myId: Option<Id>, players: map<Id, Player>, bullets: seq<Bullet>)

  /** The handler of one server event (public/main.js:38-45), on connection `self`. */
  function Apply(v: Mirror, m: Msg, self: Id): Mirror {
    match m
    case InitState(table) => v.(players := v.players + table, myId := Some(self))
    case PlayerJoined(id, data) => v.(players := v.players[id := data])
    case PlayerLeft(id) => v.(players := v.players - {id})
    case PlayerMoved(id, x, y) =>
      if id in v.players then v.(players := v.players[id := v.players[id].(x := x, y := y)]) else v
    case PlayerRotated(id, angle) =>
      if id in v.players then v.(players := v.players[id := v.players[id].(angle := angle)]) else v
    case BulletFired(b) => v.(bullets := v.bullets + [b])
    case PlayerHit(id, hp) =>
      if id in v.players then v.(players := v.players[id := v.players[id].(hp := hp)]) else v
    case PlayerRespawn(id, x, y, hp) =>
      if id in v.players then v.(players := v.players[id := v.players[id].(x := x, y := y, hp := hp)]) else v
  }

  /** The id an update event names, if it is one of the guarded four. */
  predicate Guarded(m: Msg) {
    m.PlayerMoved? || m.PlayerRotated? || m.PlayerHit? || m.PlayerRespawn?
  }

  /** The guarded handlers ignore an id the mirror does not hold. */
  lemma ApplyIgnoresAbsent(v: Mirror, m: Msg, self: Id)
    requires Guarded(m) && m.id !in v.players
    ensures Apply(v, m, self) == v
  {
  }

  /** A guarded handler on a known id rewrites that row only, and only the fields its
      message names; the keys, the bullets and the own id stay. */
  lemma ApplyGuardedFields(v: Mirror, m: Msg, self: Id)
    requires Guarded(m) && m.id in v.players
    ensures var r := Apply(v, m, self);
      var p := v.players[m.id];
      && r.myId == v.myId && r.bullets == v.bullets
      && r.players.Keys == v.players.Keys
      && (forall id | id in v.players && id != m.id :: r.players[id] == v.players[id])
      && r.players[m.id].name == p.name && r.players[m.id].color == p.color
      && (m.PlayerMoved? ==> r.players[m.id] == p.(x := m.x, y := m.y))
      && (m.PlayerRotated? ==> r.players[m.id] == p.(angle := m.angle))
      && (m.PlayerHit? ==> r.players[m.id] == p.(hp := m.hp))
      && (m.PlayerRespawn? ==> r.players[m.id] == p.(x := m.x, y := m.y, hp := m.hp))
  {
  }

  /** 'player-joined' inserts or overwrites exactly one key, 'player-left' deletes exactly
      one, 'bullet-fired' appends exactly one bullet. */
  lemma ApplyMembership(v: Mirror, m: Msg, self: Id)
    requires m.PlayerJoined? || m.PlayerLeft? || m.BulletFired?
    ensures var r := Apply(v, m, self);
      && r.myId == v.myId
      && (m.PlayerJoined? ==> r.players.Keys == v.players.Keys + {m.id} && r.players[m.id] == m.data
                               && r.bullets == v.bullets
                               && forall id | id in v.players && id != m.id :: r.players[id] == v.players[id])
      && (m.PlayerLeft? ==> r.players.Keys == v.players.Keys - {m.id} && r.bullets == v.bullets
                             && forall id | id in r.players :: r.players[id] == v.players[id])
      && (m.BulletFired? ==> r.players == v.players && |r.bullets| == |v.bullets| + 1
                              && r.bullets[..|v.bullets|] == v.bullets && r.bullets[|v.bullets|] == m.bullet)
  {
    var r := Apply(v, m, self);
    if m.BulletFired? {
      assert r.bullets[..|v.bullets|] == v.bullets;
    }
  }

  /** 'init-state' merges the server's table over the mirror and fixes the own id. */
  lemma ApplyInitState(v: Mirror, table: map<Id, Player>, self: Id)
    ensures var r := Apply(v, InitState(table), self);
      && r.myId == Some(self) && r.bullets == v.bullets
      && r.players.Keys == v.players.Keys + table.Keys
      && (forall id | id in table :: r.players[id] == table[id])
      && (forall id | id in v.players && id !in table :: r.players[id] == v.players[id])
  {
  }

  /** The handlers of a sequence of events, in order. */
  function ApplyAll(v: Mirror, ms: seq<Msg>, self: Id): Mirror
    decreases |ms|
  {
    if ms == [] then v else ApplyAll(Apply(v, ms[0], self), ms[1..], self)
  }

  lemma {:induction false} ApplyAllAppend(v: Mirror, a: seq<Msg>, c: seq<Msg>, self: Id)
    ensures ApplyAll(v, a + c, self) == ApplyAll(ApplyAll(v, a, self), c, self)
    decreases |a|
  {
    if a == [] {
      assert a + c == c;
    } else {
      assert (a + c)[0] == a[0];
      assert (a + c)[1..] == a[1..] + c;
      ApplyAllAppend(Apply(v, a[0], self), a[1..], c, self);
    }
  }

  // ---------------------------------------------------------------------------
  // The client

  class Client {
    const connId: Id                // `socket.id`
    const width: real               // `canvas.width`
    const height: real              // `canvas.height`
    var myId: Option<Id>
    var players: map<Id, Player>
    var bullets: seq<Bullet>
    var outbox: seq<Request>        // every emit to the server, in order

    /** `myId` is either unset or the connection's own id. */
    ghost predicate Valid()
      reads this
    {
      myId.None? || myId == Some(connId)
    }

    function View(): Mirror
      reads this
    {
      Mirror(myId, players, bullets)
    }

    constructor(id: Id, w: real, h: real)
      ensures Valid()
      ensures connId == id && width == w && height == h
      ensures myId == None && players == map[] && bullets == [] && outbox == []
    {
      connId, width, height := id, w, h;
      myId, players, bullets, outbox := None, map[], [], [];
    }

    /** The join button: ignored once joined; otherwise 'new-player' with the drawn spawn
        point and the requested name. `spawn` is the draw of `Math.random()`. */
    method Join(spawn: Spot, input: string)
      modifies this`outbox
      ensures myId.Some? ==> outbox == old(outbox)
      ensures myId.None? ==> outbox == old(outbox) + [NewPlayer(spawn.x, spawn.y, RequestedName(input))]
    {
      if myId.Some? {
        return;
      }
      var name := RequestedName(input);
      outbox := outbox + [NewPlayer(spawn.x, spawn.y, name)];
    }

    /** The leave button: when joined, disconnect, forget the own id and empty the table
        and the bullets; otherwise nothing. */
    method Leave()
      requires Valid()
      modifies this`myId, this`players, this`bullets, this`outbox
      ensures Valid()
      ensures old(myId).Some? ==>
        myId.None? && players == map[] && bullets == [] && outbox == old(outbox) + [Disconnect]
      ensures old(myId).None? ==>
        myId == old(myId) && players == old(players) && bullets == old(bullets) && outbox == old(outbox)
    {
      if myId.Some? {
        outbox := outbox + [Disconnect];
        myId := None;
        while players != map[]
          invariant myId.None? && outbox == old(outbox) + [Disconnect]
          decreases |players.Keys|
        {
          var k :| k in players;
          players := players - {k};
        }
        bullets := [];
      }
    }

    /** A server event arrives. */
    method Receive(m: Msg)
      requires Valid()
      modifies this`myId, this`players, this`bullets
      ensures Valid()
      ensures View() == Apply(old(View()), m, connId)
    {
      match m
      case InitState(table) =>
        players := players + table;
        myId := Some(connId);
      case PlayerJoined(id, data) =>
        players := players[id := data];
      case PlayerLeft(id) =>
        players := players - {id};
      case PlayerMoved(id, x, y) =>
        if id in players {
          var p := players[id];
          p := p.(x := x);
          p := p.(y := y);
          players := players[id := p];
        }
      case PlayerRotated(id, angle) =>
        if id in players {
          players := players[id := players[id].(angle := angle)];
        }
      case BulletFired(b) =>
        bullets := bullets + [b];
      case PlayerHit(id, hp) =>
        if id in players {
          players := players[id := players[id].(hp := hp)];
        }
      case PlayerRespawn(id, x, y, hp) =>
        if id in players {
          var p := players[id];
          p := p.(x := x);
          p := p.(y := y);
          p := p.(hp := hp);
          players := players[id := p];
        }
    }

    /** The events of a server log that reach this connection arrive, in emit order. */
    method CatchUp(log: seq<Event>)
      requires Valid()
      modifies this`myId, this`players, this`bullets
      ensures Valid()
      ensures View() == ApplyAll(old(View()), Inbox(connId, log), connId)
    {
      ghost var start := View();
      var k := 0;
      while k < |log|
        invariant 0 <= k <= |log|
        invariant Valid()
        invariant View() == ApplyAll(start, Inbox(connId, log[..k]), connId)
      {
        ghost var seen := Inbox(connId, log[..k]);
        assert log[..k + 1] == log[..k] + [log[k]];
        InboxAppend(connId, log[..k], [log[k]]);
        ApplyAllAppend(start, seen, Inbox(connId, [log[k]]), connId);
        if Reaches(log[k].to, connId) {
          Receive(log[k].msg);
        }
        k := k + 1;
      }
      assert log[..k] == log;
    }

    /** The aim handler: when joined and present, the own angle becomes `angle` and
        'rotate' is sent. `angle` stands for the `Math.atan2` of the mouse position;
        with no own row the handler throws before it changes anything. */
    method Aim(angle: real)
      modifies this`players, this`outbox
      ensures myId.Some? && myId.value in old(players) ==>
        && players == old(players)[myId.value := old(players)[myId.value].(angle := angle)]
        && outbox == old(outbox) + [Rotate(angle)]
      ensures !(myId.Some? && myId.value in old(players)) ==> players == old(players) && outbox == old(outbox)
    {
      if myId.None? || myId.value !in players {
        return;
      }
      var me := players[myId.value];
      me := me.(angle := angle);
      players := players[myId.value := me];
      outbox := outbox + [Rotate(angle)];
    }

    /** One frame of `update()`: steer the own row, when there is one, and send 'move'
        with the clamped position when a steering key is held; then advance and cull
        the bullets. */
    method Update(held: set<string>)
      modifies this`players, this`bullets, this`outbox
      ensures myId.Some? && myId.value in old(players) ==>
        var me := old(players)[myId.value];
        var to := Steer(me.x, me.y, held);
        && players == old(players)[myId.value := me.(x := to.x, y := to.y)]
        && outbox == old(outbox) + (if Pressed(held) then [Move(to.x, to.y)] else [])
      ensures !(myId.Some? && myId.value in old(players)) ==> players == old(players) && outbox == old(outbox)
      ensures bullets == Culled(old(bullets), width, height)
    {
      if myId.Some? && myId.value in players {
        var me := players[myId.value];
        var moved := false;
        if "w" in held { me := me.(y := me.y - STEP); moved := true; }
        if "s" in held { me := me.(y := me.y + STEP); moved := true; }
        if "a" in held { me := me.(x := me.x - STEP); moved := true; }
        if "d" in held { me := me.(x := me.x + STEP); moved := true; }
        me := me.(x := Clamp(me.x, MIN_X, MAX_X));
        me := me.(y := Clamp(me.y, MIN_Y, MAX_Y));
        players := players[myId.value := me];
        if moved {
          outbox := outbox + [Move(me.x, me.y)];
        }
      }
      CullBullets();
    }

    /** `for (let i = bullets.length - 1; i >= 0; i--)` of `update()`. */
    method CullBullets()
      modifies this`bullets
      ensures bullets == Culled(old(bullets), width, height)
    {
      var i := |bullets| - 1;
      while i >= 0
        invariant -1 <= i < |old(bullets)|
        invariant bullets == old(bullets)[..i + 1] + Culled(old(bullets)[i + 1..], width, height)
      {
        assert bullets[i] == old(bullets)[i];
        var b := bullets[i];
        b := b.(x := b.x + b.vx);
        b := b.(y := b.y + b.vy);
        bullets := bullets[i := b];
        if b.x < 0.0 || b.x > width || b.y < 0.0 || b.y > height {
          bullets := Splice(bullets, i);
        }
        CullStep(old(bullets), i, width, height);
        i := i - 1;
      }
      assert old(bullets)[..0] == [];
    }
  }
}
