/**
  The game server: the world state held in fields that the handlers and the
  simulation tick update in place. Networking, locking and broadcasting are
  outside the model; the current time is passed in.
*/
module Server {
  import opened OrderedDict
  import opened Decimal
  import opened GameWorld
  import opened Simulation

  /** The box loop of a tick: scan a snapshot of the boxes in insertion
      order and stop at the first one the bullet hits. */
  method FindFirstHit(boxes: Dict<Box>, b: Bullet) returns (hit: Option<nat>)
    requires boxes.Valid()
    ensures hit == FirstHit(boxes.keys, boxes.entries, b)
  {
    var j := 0;
    while j < |boxes.keys|
      invariant 0 <= j <= |boxes.keys|
      invariant forall i :: 0 <= i < j ==> !Hits(b, boxes.entries[boxes.keys[i]])
    {
      if Hits(b, boxes.entries[boxes.keys[j]]) {
        return Some(j);
      }
      j := j + 1;
    }
    return None;
  }

  /** One bullet's turn in the tick: it flies, then drops out, or hits the
      first box in reach, or stays in flight. */
  method FlyBullet(w: World, bid: string) returns (r: World)
    requires Wf(w) && bid in w.bullets.entries
    ensures r == StepBullet(w, bid)
  {
    var bullets := w.bullets;
    var bullet := bullets.entries[bid];
    bullet := bullet.(x := bullet.x + bullet.dx, y := bullet.y + bullet.dy, life := bullet.life - 1);
    assert bullet == Advance(w.bullets.entries[bid]);
    bullets := bullets.Put(bid, bullet);
    if Expired(bullet) {
      StepBulletWhenExpired(w, bid);
      DeleteAfterPut(w.bullets, bid, bullet);
      return w.(bullets := bullets.Delete(bid));
    }
    var hit := FindFirstHit(w.boxes, bullet);
    if hit.None? {
      StepBulletWhenClear(w, bid);
      return w.(bullets := bullets);
    }
    StepBulletWhenHit(w, bid, hit.value);
    var boxes := w.boxes;
    var boxId := boxes.keys[hit.value];
    var box := boxes.entries[boxId];
    box := box.(hp := box.hp - 1);
    boxes := boxes.Put(boxId, box);
    if box.hp <= 0 {
      DeleteAfterPut(w.boxes, boxId, box);
      boxes := boxes.Delete(boxId);
    }
    assert boxes == Damage(w.boxes, boxId);
    DeleteAfterPut(w.bullets, bid, bullet);
    return w.(boxes := boxes, bullets := bullets.Delete(bid));
  }

  class GameServer {
    var players: map<string, Player>
    var boxes: Dict<Box>
    var bullets: Dict<Bullet>
    /** Time of the last simulation step, in milliseconds. */
    var lastUpdate: int

    function State(): World
      reads this
    {
      World(players, boxes, bullets)
    }

    ghost predicate Valid()
      reads this
    {
      Wf(State())
    }

    /** Seeds the ten boxes; `now` is the clock reading at start-up. */
    constructor (now: int)
      ensures State() == InitialWorld()
      ensures Valid()
      ensures lastUpdate == now
    {
      var start := InitialWorld();
      players, boxes, bullets := start.players, start.boxes, start.bullets;
      lastUpdate := now;
      new;
      assert State() == start;
    }

    /** A client connected on `channel`. */
    method Connected(channel: string)
      requires Valid()
      modifies this
      ensures Valid() && lastUpdate == old(lastUpdate)
      ensures State() == Connect(old(State()), channel)
    {
      players := players[channel := Player(SpawnX, SpawnY, false)];
    }

    /** MOVE from `channel`; `ok` is false when no player is registered under
        it, the lookup failure of the handler, and then nothing changes. */
    method HandleMove(channel: string, x: int, y: int) returns (ok: bool)
      requires Valid()
      modifies this
      ensures Valid() && lastUpdate == old(lastUpdate)
      ensures ok <==> channel in old(players)
      ensures State() == if ok then Move(old(State()), channel, x, y) else old(State())
    {
      if channel !in players {
        return false;
      }
      players := players[channel := players[channel].(x := x)];
      players := players[channel := players[channel].(y := y)];
      return true;
    }

    /** SHOOT from `channel`: the id is the bullet count, taken before the
        shooter is looked up. */
    method HandleShoot(channel: string, dx: int, dy: int) returns (ok: bool)
      requires Valid()
      modifies this
      ensures Valid() && lastUpdate == old(lastUpdate)
      ensures ok <==> channel in old(players)
      ensures State() == if ok then Shoot(old(State()), channel, dx, dy) else old(State())
    {
      var bulletId := NatToString(bullets.Len());
      if channel !in players {
        return false;
      }
      var shooter := players[channel];
      bullets := bullets.Put(bulletId, Bullet(shooter.x, shooter.y, dx, dy, BulletLife));
      return true;
    }

    /** PICKUP from `channel`. */
    method HandlePickup(channel: string) returns (ok: bool)
      requires Valid()
      modifies this
      ensures Valid() && lastUpdate == old(lastUpdate)
      ensures ok <==> channel in old(players)
      ensures State() == if ok then Pickup(old(State()), channel) else old(State())
    {
      if channel !in players {
        return false;
      }
      players := players[channel := players[channel].(hasGun := true)];
      return true;
    }

    /** The body of the bullet loop for bullet `bid`. */
    method MoveBullet(bid: string)
      requires Valid() && bid in bullets.entries
      modifies this
      ensures State() == StepBullet(old(State()), bid)
      ensures lastUpdate == old(lastUpdate)
    {
      var after := FlyBullet(State(), bid);
      boxes, bullets := after.boxes, after.bullets;
    }

    /** The periodic callback: at most one simulation step per 100 ms, over
        a snapshot of the bullet keys. */
    method Update(now: int)
      requires Valid()
      modifies this
      ensures Valid()
      ensures now - old(lastUpdate) > TickInterval ==>
        State() == Tick(old(State())) && lastUpdate == now
      ensures now - old(lastUpdate) <= TickInterval ==>
        State() == old(State()) && lastUpdate == old(lastUpdate)
    {
      if now - lastUpdate > TickInterval {
        ghost var target := Tick(State());
        var snapshot := bullets.keys;
        var i := 0;
        while i < |snapshot|
          invariant 0 <= i <= |snapshot|
          invariant Valid()
          invariant Distinct(snapshot[i..])
          invariant forall k :: k in snapshot[i..] ==> k in bullets.entries
          invariant StepAll(State(), snapshot[i..]) == target
        {
          var bid := snapshot[i];
          StepAllUnfold(State(), snapshot[i..]);
          MoveBullet(bid);
          assert snapshot[i..][1..] == snapshot[i + 1..];
          i := i + 1;
        }
        lastUpdate := now;
      }
    }
  }
}
