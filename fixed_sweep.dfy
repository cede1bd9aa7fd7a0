/** The bullet loop as server.js evidently means it: a bullet that hits a player
    and also leaves the arena is removed once, not twice. */
module FixedSweep {
  import opened Shared
  import opened Arena

  /** Step with one removal per bullet: splice when the bullet hit someone or left
      the arena. The table and the log come out as in `Arena.Step`. */
  function StepFixed(order: seq<Id>, s: TickState, i: nat): (r: TickState)
    requires i < |s.bullets|
    ensures |r.bullets| >= i && r.bullets[..i] == s.bullets[..i]
  {
    var b := Moved(s.bullets[i]);
    var hit := FirstTarget(order, s.players, b, 0).Some?;
    Step(order, s, i).(bullets := if hit || OutOfArena(b) then Splice(s.bullets, i) else s.bullets[i := b])
  }

  function SweepFixedFrom(order: seq<Id>, s: TickState, i: int): TickState
    requires i < |s.bullets|
    decreases i + 1
  {
    if i < 0 then s else SweepFixedFrom(order, StepFixed(order, s, i), i - 1)
  }

  function SweepFixed(order: seq<Id>, s: TickState): TickState {
    SweepFixedFrom(order, s, |s.bullets| - 1)
  }

  /** The intended outcome of the bullet loop: each bullet, advanced, in the original
      order, exactly when it hit nobody and is still inside the arena. */
  function Survivors(order: seq<Id>, players: map<Id, Player>, bs: seq<Bullet>): (r: seq<Bullet>)
    ensures |r| <= |bs|
    ensures forall k | 0 <= k < |r| :: !OutOfArena(r[k])
  {
    if bs == [] then []
    else
      var b := Moved(bs[0]);
      (if FirstTarget(order, players, b, 0).None? && !OutOfArena(b) then [b] else []) + Survivors(order, players, bs[1..])
  }

  /** Two tables with the same ids at the same positions. */
  ghost predicate SamePositions(a: map<Id, Player>, c: map<Id, Player>) {
    a.Keys == c.Keys && forall id | id in a :: a[id].x == c[id].x && a[id].y == c[id].y
  }

  /** Which player a bullet hits depends on ids and positions alone, not on hp. */
  lemma {:induction false} FirstTargetIgnoresHp(order: seq<Id>, a: map<Id, Player>, c: map<Id, Player>, b: Bullet, from: nat)
    requires from <= |order|
    requires SamePositions(a, c)
    ensures FirstTarget(order, a, b, from) == FirstTarget(order, c, b, from)
    decreases |order| - from
  {
    if from < |order| {
      assert Eligible(a, order[from], b) == Eligible(c, order[from], b);
      FirstTargetIgnoresHp(order, a, c, b, from + 1);
    }
  }

  /** A step changes hp only, so positions stay as they were. */
  lemma StepKeepsPositions(order: seq<Id>, s: TickState, i: nat, players0: map<Id, Player>)
    requires i < |s.bullets|
    requires SamePositions(s.players, players0)
    ensures SamePositions(StepFixed(order, s, i).players, players0)
  {
    var t := StepFixed(order, s, i);
    StepChangesAtMostOne(order, s, i);
    forall id | id in t.players
      ensures t.players[id].x == players0[id].x && t.players[id].y == players0[id].y
    {
      assert t.players[id] == Step(order, s, i).players[id];
    }
  }

  /** One fixed step moves bullet i from the unprocessed prefix to the processed
      suffix, which stays the survivors of what it came from. */
  lemma StepFixedSuffix(order: seq<Id>, s: TickState, i: nat, players0: map<Id, Player>, rest: seq<Bullet>)
    requires i < |s.bullets|
    requires SamePositions(s.players, players0)
    requires s.bullets[i + 1..] == Survivors(order, players0, rest)
    ensures StepFixed(order, s, i).bullets[i..] == Survivors(order, players0, [s.bullets[i]] + rest)
  {
    var t := StepFixed(order, s, i);
    var b := Moved(s.bullets[i]);
    FirstTargetIgnoresHp(order, s.players, players0, b, 0);
    var rest' := [s.bullets[i]] + rest;
    assert rest'[1..] == rest;
    var keep := if FirstTarget(order, s.players, b, 0).None? && !OutOfArena(b) then [b] else [];
    assert Survivors(order, players0, rest') == keep + Survivors(order, players0, rest);
    if keep == [] {
      assert t.bullets == Splice(s.bullets, i);
      assert t.bullets[i..] == s.bullets[i + 1..];
    } else {
      assert t.bullets == s.bullets[i := b];
      assert t.bullets[i..] == [b] + s.bullets[i + 1..];
    }
  }

  lemma {:induction false} SweepFixedFromSurvivors(order: seq<Id>, s: TickState, i: int, players0: map<Id, Player>, rest: seq<Bullet>)
    requires -1 <= i < |s.bullets|
    requires SamePositions(s.players, players0)
    requires s.bullets[i + 1..] == Survivors(order, players0, rest)
    ensures SweepFixedFrom(order, s, i).bullets == Survivors(order, players0, s.bullets[..i + 1] + rest)
    decreases i + 1
  {
    if i < 0 {
      assert s.bullets[..i + 1] + rest == rest;
    } else {
      var t := StepFixed(order, s, i);
      var rest' := [s.bullets[i]] + rest;
      StepKeepsPositions(order, s, i, players0);
      StepFixedSuffix(order, s, i, players0, rest);
      SweepFixedFromSurvivors(order, t, i - 1, players0, rest');
      PrefixShift(s.bullets, t.bullets, i, rest);
    }
  }

  lemma PrefixShift(was: seq<Bullet>, now: seq<Bullet>, i: nat, rest: seq<Bullet>)
    requires i < |was| && i <= |now|
    requires now[..i] == was[..i]
    ensures now[..i] + ([was[i]] + rest) == was[..i + 1] + rest
  {
    assert was[..i + 1] == was[..i] + [was[i]];
  }

  /** With the single splice, the bullets left after the loop are exactly the survivors:
      a bullet that neither hit a player nor left the arena is never lost. */
  lemma SweepFixedKeepsSurvivors(order: seq<Id>, s: TickState)
    ensures SweepFixed(order, s).bullets == Survivors(order, s.players, s.bullets)
  {
    SweepFixedFromSurvivors(order, s, |s.bullets| - 1, s.players, []);
    assert s.bullets[..|s.bullets|] + [] == s.bullets;
  }

  /** The fix changes nothing but the bullet array: hits and hp come out as written. */
  lemma StepFixedAgreesOffBullets(order: seq<Id>, s: TickState, i: nat)
    requires i < |s.bullets|
    ensures StepFixed(order, s, i).players == Step(order, s, i).players
    ensures StepFixed(order, s, i).log == Step(order, s, i).log
  {
  }
}
