/**
  The simulation step as a function of the world state: every bullet, in the
  order of a snapshot of the bullet keys, flies one tick, then either drops
  out (off the field or out of life), or damages the first box it overlaps
  and is consumed, or stays in flight.
*/
module Simulation {
  import opened OrderedDict
  import opened GameWorld

  const FieldWidth := 800
  const FieldHeight := 400
  const HitRange := 20
  const TickInterval := 100

  function Abs(n: int): nat {
    if n < 0 then -n else n
  }

  /** One tick of flight: moved by its velocity, one life fewer. */
  function Advance(b: Bullet): (r: Bullet)
    ensures r.dx == b.dx && r.dy == b.dy
    ensures r.x - b.x == b.dx && r.y - b.y == b.dy && r.life == b.life - 1
  {
    b.(x := b.x + b.dx, y := b.y + b.dy, life := b.life - 1)
  }

  /** `n` ticks of flight. */
  function Fly(b: Bullet, n: nat): Bullet
    decreases n
  {
    if n == 0 then b else Advance(Fly(b, n - 1))
  }

  /** After `n` ticks a bullet has moved `n` times its velocity and lost `n`
      lives. */
  lemma {:induction false} FlyAfter(b: Bullet, n: nat)
    ensures Fly(b, n) == b.(x := b.x + n * b.dx, y := b.y + n * b.dy, life := b.life - n)
    decreases n
  {
    if n > 0 {
      FlyAfter(b, n - 1);
      assert (n - 1) * b.dx + b.dx == n * b.dx;
      assert (n - 1) * b.dy + b.dy == n * b.dy;
    }
  }

  /** A bullet still in play after `n` ticks started with more than `n`
      lives, so a fresh bullet is out of play by its 200th tick. */
  lemma FlyLifespan(b: Bullet, n: nat)
    ensures !Expired(Fly(b, n)) ==> n < b.life
  {
    FlyAfter(b, n);
  }

  /** Off the 800 x 400 field, or out of life: a bullet stays in play exactly
      while it is on the closed field with life left. */
  predicate Expired(b: Bullet): (r: bool)
    ensures !r <==> 0 <= b.x <= FieldWidth && 0 <= b.y <= FieldHeight && b.life >= 1
  {
    b.x < 0 || b.x > FieldWidth || b.y < 0 || b.y > FieldHeight || b.life <= 0
  }

  /** Closer than 20 units to the box on both axes: the bullet lies strictly
      inside the 40 x 40 square centred on the box. */
  predicate Hits(b: Bullet, box: Box): (r: bool)
    ensures r <==> box.x - HitRange < b.x < box.x + HitRange && box.y - HitRange < b.y < box.y + HitRange
  {
    Abs(b.x - box.x) < HitRange && Abs(b.y - box.y) < HitRange
  }

  /** The position in `ids` of the first box the bullet hits, if any. */
  function FirstHit(ids: seq<string>, boxes: map<string, Box>, b: Bullet): (r: Option<nat>)
    requires forall id :: id in ids ==> id in boxes
    ensures r.Some? ==> r.value < |ids| && Hits(b, boxes[ids[r.value]])
    ensures forall j :: 0 <= j < |ids| && (r.None? || j < r.value) ==> !Hits(b, boxes[ids[j]])
  {
    if ids == [] then None
    else if Hits(b, boxes[ids[0]]) then Some(0)
    else match FirstHit(ids[1..], boxes, b)
      case None => None
      case Some(j) => Some(j + 1)
  }

  /** A hit on box `id`: one hp off, and the box goes once its hp is used up;
      every other box stays as it was. */
  function Damage(boxes: Dict<Box>, id: string): (r: Dict<Box>)
    requires id in boxes.entries
    ensures boxes.Valid() ==> r.Valid()
    ensures id in r.entries <==> boxes.entries[id].hp > 1
    ensures r.keys == if boxes.entries[id].hp > 1 then boxes.keys else Without(boxes.keys, id)
    ensures id in r.entries ==> r.entries[id] == boxes.entries[id].(hp := boxes.entries[id].hp - 1)
    ensures forall other :: other != id ==>
      (other in r.entries <==> other in boxes.entries) &&
      (other in boxes.entries ==> r.entries[other] == boxes.entries[other])
  {
    var damaged := boxes.entries[id].(hp := boxes.entries[id].hp - 1);
    if damaged.hp <= 0 then boxes.Delete(id) else boxes.Put(id, damaged)
  }

  /** What the tick does with bullet `bid`. */
  function StepBullet(w: World, bid: string): (r: World)
    requires Wf(w) && bid in w.bullets.entries
    ensures Wf(r) && r.players == w.players
    ensures forall k :: k != bid ==> (k in r.bullets.entries <==> k in w.bullets.entries)
    ensures forall k :: k != bid && k in w.bullets.entries ==> r.bullets.entries[k] == w.bullets.entries[k]
  {
    var moved := Advance(w.bullets.entries[bid]);
    if Expired(moved) then w.(bullets := w.bullets.Delete(bid))
    else match FirstHit(w.boxes.keys, w.boxes.entries, moved)
      case None => w.(bullets := w.bullets.Put(bid, moved))
      case Some(i) => w.(boxes := Damage(w.boxes, w.boxes.keys[i]), bullets := w.bullets.Delete(bid))
  }

  /** The bullet step once the bullet has flown out of play. */
  lemma StepBulletWhenExpired(w: World, bid: string)
    requires Wf(w) && bid in w.bullets.entries && Expired(Advance(w.bullets.entries[bid]))
    ensures StepBullet(w, bid) == w.(bullets := w.bullets.Delete(bid))
  {
  }

  /** The bullet step when the bullet is in play and clear of every box. */
  lemma StepBulletWhenClear(w: World, bid: string)
    requires Wf(w) && bid in w.bullets.entries
    requires !Expired(Advance(w.bullets.entries[bid]))
    requires FirstHit(w.boxes.keys, w.boxes.entries, Advance(w.bullets.entries[bid])).None?
    ensures StepBullet(w, bid) == w.(bullets := w.bullets.Put(bid, Advance(w.bullets.entries[bid])))
  {
  }

  /** The bullet step when the first box it hits is box number `i`. */
  lemma StepBulletWhenHit(w: World, bid: string, i: nat)
    requires Wf(w) && bid in w.bullets.entries
    requires !Expired(Advance(w.bullets.entries[bid]))
    requires FirstHit(w.boxes.keys, w.boxes.entries, Advance(w.bullets.entries[bid])) == Some(i)
    ensures i < |w.boxes.keys|
    ensures StepBullet(w, bid) == w.(boxes := Damage(w.boxes, w.boxes.keys[i]), bullets := w.bullets.Delete(bid))
  {
  }

  /** The bullets `ks` handled one after the other. */
  function StepAll(w: World, ks: seq<string>): (r: World)
    requires Wf(w) && Distinct(ks) && forall k :: k in ks ==> k in w.bullets.entries
    ensures Wf(r) && r.players == w.players
    decreases |ks|
  {
    if ks == [] then w
    else
      assert forall k :: k in ks[1..] ==> k != ks[0];
      StepAll(StepBullet(w, ks[0]), ks[1..])
  }

  /** Handling `ks` is handling its first bullet, then the rest, which are
      still present and still distinct. */
  lemma StepAllUnfold(w: World, ks: seq<string>)
    requires Wf(w) && Distinct(ks) && forall k :: k in ks ==> k in w.bullets.entries
    requires ks != []
    ensures Distinct(ks[1..])
    ensures forall k :: k in ks[1..] ==> k in StepBullet(w, ks[0]).bullets.entries
    ensures StepAll(w, ks) == StepAll(StepBullet(w, ks[0]), ks[1..])
  {
    assert forall k :: k in ks[1..] ==> k != ks[0];
  }

  /** One simulation step over every bullet present when it starts. */
  function Tick(w: World): (r: World)
    requires Wf(w)
    ensures Wf(r) && r.players == w.players
  {
    StepAll(w, w.bullets.keys)
  }

  /** `after` holds only boxes of `before`, in place, none with more hp. */
  ghost predicate BoxesWorn(before: Dict<Box>, after: Dict<Box>) {
    forall id :: id in after.entries ==>
      && id in before.entries
      && after.entries[id].x == before.entries[id].x
      && after.entries[id].y == before.entries[id].y
      && after.entries[id].hp <= before.entries[id].hp
  }

  /** The three outcomes for one bullet. Out of play: removed, with no
      collision test. In play and clear of every box: kept, moved by its
      velocity with one life fewer. In play and overlapping: the first such
      box in insertion order loses exactly one hp, and goes once its hp is
      used up, every other box stays as it was, and the bullet is removed. */
  lemma StepBulletEffect(w: World, bid: string)
    requires Wf(w) && bid in w.bullets.entries
    ensures var moved := Advance(w.bullets.entries[bid]);
      var r := StepBullet(w, bid);
      && (Expired(moved) ==> bid !in r.bullets.entries && r.boxes == w.boxes)
      && (!Expired(moved) && FirstHit(w.boxes.keys, w.boxes.entries, moved).None? ==>
            && bid in r.bullets.entries && r.bullets.entries[bid] == moved
            && r.boxes == w.boxes
            && forall id :: id in w.boxes.entries ==> !Hits(moved, w.boxes.entries[id]))
      && (!Expired(moved) && FirstHit(w.boxes.keys, w.boxes.entries, moved).Some? ==>
            var i := FirstHit(w.boxes.keys, w.boxes.entries, moved).value;
            var id := w.boxes.keys[i];
            && Hits(moved, w.boxes.entries[id])
            && (forall j :: 0 <= j < i ==> !Hits(moved, w.boxes.entries[w.boxes.keys[j]]))
            && bid !in r.bullets.entries
            && (w.boxes.entries[id].hp > 1 ==>
                  id in r.boxes.entries && r.boxes.entries[id] == w.boxes.entries[id].(hp := w.boxes.entries[id].hp - 1))
            && (w.boxes.entries[id].hp <= 1 ==> id !in r.boxes.entries)
            && forall other :: other in w.boxes.entries && other != id ==>
                 other in r.boxes.entries && r.boxes.entries[other] == w.boxes.entries[other])
  {
    var moved := Advance(w.bullets.entries[bid]);
    if !Expired(moved) && FirstHit(w.boxes.keys, w.boxes.entries, moved).None? {
      forall id | id in w.boxes.entries
        ensures !Hits(moved, w.boxes.entries[id])
      {
        var j :| 0 <= j < |w.boxes.keys| && w.boxes.keys[j] == id;
      }
    }
  }

  /** A bullet step keeps every box in place and never raises hp. */
  lemma StepBulletWears(w: World, bid: string)
    requires Wf(w) && bid in w.bullets.entries
    ensures BoxesWorn(w.boxes, StepBullet(w, bid).boxes)
  {
  }

  /** A bullet that a step leaves flying has flown exactly one tick and is
      still in play. */
  lemma StepBulletSurvivor(w: World, bid: string)
    requires Wf(w) && bid in w.bullets.entries
    ensures bid in StepBullet(w, bid).bullets.entries ==>
      && StepBullet(w, bid).bullets.entries[bid] == Advance(w.bullets.entries[bid])
      && !Expired(StepBullet(w, bid).bullets.entries[bid])
  {
  }

  /** Handling `ks` creates no bullet. */
  lemma {:induction false} StepAllNoNewBullets(w: World, ks: seq<string>)
    requires Wf(w) && Distinct(ks) && forall k :: k in ks ==> k in w.bullets.entries
    ensures forall k :: k in StepAll(w, ks).bullets.entries ==> k in w.bullets.entries
    decreases |ks|
  {
    if ks != [] {
      assert forall k :: k in ks[1..] ==> k != ks[0];
      StepAllNoNewBullets(StepBullet(w, ks[0]), ks[1..]);
    }
  }

  /** Handling `ks` leaves every other bullet where it was. */
  lemma {:induction false} StepAllUntouched(w: World, ks: seq<string>)
    requires Wf(w) && Distinct(ks) && forall k :: k in ks ==> k in w.bullets.entries
    ensures forall k :: k in w.bullets.entries && k !in ks ==>
      k in StepAll(w, ks).bullets.entries && StepAll(w, ks).bullets.entries[k] == w.bullets.entries[k]
    decreases |ks|
  {
    if ks != [] {
      assert forall k :: k in ks[1..] ==> k != ks[0];
      StepAllUntouched(StepBullet(w, ks[0]), ks[1..]);
    }
  }

  /** Each bullet of `ks` still flying after handling `ks` has flown exactly
      one tick and is still in play. */
  lemma {:induction false} StepAllFlown(w: World, ks: seq<string>)
    requires Wf(w) && Distinct(ks) && forall k :: k in ks ==> k in w.bullets.entries
    ensures forall k :: k in ks && k in StepAll(w, ks).bullets.entries ==>
      && StepAll(w, ks).bullets.entries[k] == Advance(w.bullets.entries[k])
      && !Expired(StepAll(w, ks).bullets.entries[k])
    decreases |ks|
  {
    if ks != [] {
      var bid := ks[0];
      var w1 := StepBullet(w, bid);
      assert forall k :: k in ks[1..] ==> k != bid;
      var r := StepAll(w1, ks[1..]);
      assert r == StepAll(w, ks);
      StepAllFlown(w1, ks[1..]);
      StepAllNoNewBullets(w1, ks[1..]);
      StepAllUntouched(w1, ks[1..]);
      StepBulletSurvivor(w, bid);
      forall k | k in ks && k in r.bullets.entries
        ensures r.bullets.entries[k] == Advance(w.bullets.entries[k]) && !Expired(r.bullets.entries[k])
      {
        if k != bid {
          assert k in ks[1..];
        }
      }
    }
  }

  /** Each bullet of `ks` that flies out of play is gone once `ks` is handled. */
  lemma {:induction false} StepAllDropsExpired(w: World, ks: seq<string>)
    requires Wf(w) && Distinct(ks) && forall k :: k in ks ==> k in w.bullets.entries
    ensures forall k :: k in ks && Expired(Advance(w.bullets.entries[k])) ==>
      k !in StepAll(w, ks).bullets.entries
    decreases |ks|
  {
    if ks != [] {
      var bid := ks[0];
      var w1 := StepBullet(w, bid);
      assert forall k :: k in ks[1..] ==> k != bid;
      var r := StepAll(w1, ks[1..]);
      assert r == StepAll(w, ks);
      StepAllDropsExpired(w1, ks[1..]);
      StepAllNoNewBullets(w1, ks[1..]);
      forall k | k in ks && Expired(Advance(w.bullets.entries[k]))
        ensures k !in r.bullets.entries
      {
        if k != bid {
          assert k in ks[1..];
        }
      }
    }
  }

  /** Handling `ks` keeps every box in place, adds none and raises no hp. */
  lemma {:induction false} StepAllWears(w: World, ks: seq<string>)
    requires Wf(w) && Distinct(ks) && forall k :: k in ks ==> k in w.bullets.entries
    ensures BoxesWorn(w.boxes, StepAll(w, ks).boxes)
    decreases |ks|
  {
    if ks != [] {
      var w1 := StepBullet(w, ks[0]);
      assert forall k :: k in ks[1..] ==> k != ks[0];
      StepBulletWears(w, ks[0]);
      StepAllWears(w1, ks[1..]);
    }
  }

  /** No standing box is within reach of the bullet. */
  ghost predicate ClearOf(b: Bullet, boxes: Dict<Box>) {
    forall id :: id in boxes.entries ==> !Hits(b, boxes.entries[id])
  }

  /** Wearing boxes down never brings one into reach: hits depend on positions only. */
  lemma ClearOfWorn(b: Bullet, before: Dict<Box>, after: Dict<Box>)
    requires ClearOf(b, before) && BoxesWorn(before, after)
    ensures ClearOf(b, after)
  {
    forall id | id in after.entries
      ensures !Hits(b, after.entries[id])
    {
      assert id in before.entries;
    }
  }

  /** A bullet that a step leaves flying is clear of every box. */
  lemma StepBulletSurvivorClear(w: World, bid: string)
    requires Wf(w) && bid in w.bullets.entries && bid in StepBullet(w, bid).bullets.entries
    ensures ClearOf(StepBullet(w, bid).bullets.entries[bid], StepBullet(w, bid).boxes)
  {
    StepBulletEffect(w, bid);
  }

  /** The first bullet handled, if still flying at the end, is clear of
      every box still standing. */
  lemma FirstStaysClear(w: World, ks: seq<string>)
    requires Wf(w) && Distinct(ks) && forall k :: k in ks ==> k in w.bullets.entries
    requires ks != [] && ks[0] in StepAll(w, ks).bullets.entries
    ensures ClearOf(StepAll(w, ks).bullets.entries[ks[0]], StepAll(w, ks).boxes)
  {
    var bid := ks[0];
    var w1 := StepBullet(w, bid);
    assert forall k :: k in ks[1..] ==> k != bid;
    var r := StepAll(w1, ks[1..]);
    assert r == StepAll(w, ks);
    StepAllNoNewBullets(w1, ks[1..]);
    StepAllUntouched(w1, ks[1..]);
    assert bid in w1.bullets.entries && r.bullets.entries[bid] == w1.bullets.entries[bid];
    StepBulletSurvivorClear(w, bid);
    StepAllWears(w1, ks[1..]);
    ClearOfWorn(w1.bullets.entries[bid], w1.boxes, r.boxes);
  }

  /** Every bullet of `ks` still flying is clear of every box still standing. */
  lemma {:induction false} StepAllClear(w: World, ks: seq<string>)
    requires Wf(w) && Distinct(ks) && forall k :: k in ks ==> k in w.bullets.entries
    ensures var r := StepAll(w, ks);
      forall k :: k in ks && k in r.bullets.entries ==> ClearOf(r.bullets.entries[k], r.boxes)
    decreases |ks|
  {
    if ks != [] {
      var bid := ks[0];
      var w1 := StepBullet(w, bid);
      assert forall k :: k in ks[1..] ==> k != bid;
      var r := StepAll(w1, ks[1..]);
      assert r == StepAll(w, ks);
      StepAllClear(w1, ks[1..]);
      if bid in r.bullets.entries {
        FirstStaysClear(w, ks);
      }
      forall k | k in ks && k in r.bullets.entries
        ensures ClearOf(r.bullets.entries[k], r.boxes)
      {
        if k != bid {
          assert k in ks[1..];
        }
      }
    }
  }

  /** The hp of the boxes `ids`, added up. */
  function SumHp(ids: seq<string>, boxes: map<string, Box>): int
    requires forall id :: id in ids ==> id in boxes
  {
    if ids == [] then 0 else boxes[ids[0]].hp + SumHp(ids[1..], boxes)
  }

  /** The hp left in all boxes together. */
  function TotalHp(d: Dict<Box>): int
    requires d.Valid()
  {
    SumHp(d.keys, d.entries)
  }

  lemma {:induction false} SumHpFrame(ids: seq<string>, m1: map<string, Box>, m2: map<string, Box>)
    requires forall id :: id in ids ==> id in m1 && id in m2 && m1[id].hp == m2[id].hp
    ensures SumHp(ids, m1) == SumHp(ids, m2)
  {
    if ids != [] {
      SumHpFrame(ids[1..], m1, m2);
    }
  }

  /** Changing one box changes the total by its change in hp. */
  lemma {:induction false} SumHpPut(ids: seq<string>, m: map<string, Box>, k: string, v: Box)
    requires Distinct(ids) && (forall id :: id in ids ==> id in m) && k in ids
    ensures SumHp(ids, m[k := v]) == SumHp(ids, m) - m[k].hp + v.hp
  {
    if ids[0] == k {
      assert forall id :: id in ids[1..] ==> id != k;
      SumHpFrame(ids[1..], m[k := v], m);
    } else {
      SumHpPut(ids[1..], m, k, v);
    }
  }

  /** Removing one box takes its hp out of the total. */
  lemma {:induction false} SumHpWithout(ids: seq<string>, m: map<string, Box>, k: string)
    requires Distinct(ids) && (forall id :: id in ids ==> id in m) && k in ids
    ensures SumHp(Without(ids, k), m - {k}) == SumHp(ids, m) - m[k].hp
  {
    if ids[0] == k {
      assert forall id :: id in ids[1..] ==> id != k;
      assert Without(ids, k) == ids[1..];
      SumHpFrame(ids[1..], m - {k}, m);
    } else {
      assert Without(ids, k) == [ids[0]] + Without(ids[1..], k);
      SumHpWithout(ids[1..], m, k);
    }
  }

  /** A hit on a box with hp left takes exactly one hp off the total. */
  lemma DamageTotalHp(boxes: Dict<Box>, id: string)
    requires boxes.Valid() && id in boxes.entries && boxes.entries[id].hp > 0
    ensures Damage(boxes, id).Valid()
    ensures TotalHp(Damage(boxes, id)) == TotalHp(boxes) - 1
  {
    var damaged := boxes.entries[id].(hp := boxes.entries[id].hp - 1);
    if damaged.hp <= 0 {
      SumHpWithout(boxes.keys, boxes.entries, id);
    } else {
      SumHpPut(boxes.keys, boxes.entries, id, damaged);
    }
  }

  /** One bullet takes at most one hp off the boxes, and only by being
      consumed: the hp lost is at most the bullets lost, which is at most one. */
  lemma StepBulletDamage(w: World, bid: string)
    requires Wf(w) && bid in w.bullets.entries
    ensures var r := StepBullet(w, bid);
      0 <= TotalHp(w.boxes) - TotalHp(r.boxes) <= w.bullets.Len() - r.bullets.Len() <= 1
  {
    var moved := Advance(w.bullets.entries[bid]);
    if !Expired(moved) {
      match FirstHit(w.boxes.keys, w.boxes.entries, moved)
      case None =>
        assert |w.bullets.entries[bid := moved]| == |w.bullets.entries|;
      case Some(i) =>
        DamageTotalHp(w.boxes, w.boxes.keys[i]);
    }
  }

  /** Over any run of bullet steps, boxes lose no more hp in total than
      bullets were removed: no bullet damages two boxes, nor one box twice. */
  lemma {:induction false} StepAllDamage(w: World, ks: seq<string>)
    requires Wf(w) && Distinct(ks) && forall k :: k in ks ==> k in w.bullets.entries
    ensures var r := StepAll(w, ks);
      0 <= TotalHp(w.boxes) - TotalHp(r.boxes) <= w.bullets.Len() - r.bullets.Len()
    decreases |ks|
  {
    if ks != [] {
      var w1 := StepBullet(w, ks[0]);
      assert forall k :: k in ks[1..] ==> k != ks[0];
      StepBulletDamage(w, ks[0]);
      StepAllDamage(w1, ks[1..]);
    }
  }

  /** A bullet step deletes boxes and bullets but reorders neither: the keys
      left are the old keys still present, in their old order. */
  lemma StepBulletKeepsOrder(w: World, bid: string)
    requires Wf(w) && bid in w.bullets.entries
    ensures var r := StepBullet(w, bid);
      && r.boxes.keys == Keep(w.boxes.keys, r.boxes.entries.Keys)
      && r.bullets.keys == Keep(w.bullets.keys, r.bullets.entries.Keys)
  {
    var r := StepBullet(w, bid);
    var moved := Advance(w.bullets.entries[bid]);
    if !Expired(moved) && FirstHit(w.boxes.keys, w.boxes.entries, moved).None? {
      KeepAll(w.bullets.keys, r.bullets.entries.Keys);
    } else {
      KeepWithout(w.bullets.keys, bid, r.bullets.entries.Keys);
    }
    if !Expired(moved) && FirstHit(w.boxes.keys, w.boxes.entries, moved).Some? {
      var id := w.boxes.keys[FirstHit(w.boxes.keys, w.boxes.entries, moved).value];
      if w.boxes.entries[id].hp > 1 {
        KeepAll(w.boxes.keys, r.boxes.entries.Keys);
      } else {
        KeepWithout(w.boxes.keys, id, r.boxes.entries.Keys);
      }
    } else {
      KeepAll(w.boxes.keys, r.boxes.entries.Keys);
    }
  }

  /** Handling `ks` reorders neither boxes nor bullets. */
  lemma {:induction false} StepAllKeepsOrder(w: World, ks: seq<string>)
    requires Wf(w) && Distinct(ks) && forall k :: k in ks ==> k in w.bullets.entries
    ensures var r := StepAll(w, ks);
      && r.boxes.keys == Keep(w.boxes.keys, r.boxes.entries.Keys)
      && r.bullets.keys == Keep(w.bullets.keys, r.bullets.entries.Keys)
    decreases |ks|
  {
    if ks == [] {
      KeepAll(w.boxes.keys, w.boxes.entries.Keys);
      KeepAll(w.bullets.keys, w.bullets.entries.Keys);
    } else {
      var w1 := StepBullet(w, ks[0]);
      assert forall k :: k in ks[1..] ==> k != ks[0];
      var r := StepAll(w1, ks[1..]);
      assert r == StepAll(w, ks);
      StepBulletKeepsOrder(w, ks[0]);
      StepAllKeepsOrder(w1, ks[1..]);
      StepAllWears(w1, ks[1..]);
      StepAllNoNewBullets(w1, ks[1..]);
      KeepShrink(w.boxes.keys, w1.boxes.entries.Keys, r.boxes.entries.Keys);
      KeepShrink(w.bullets.keys, w1.bullets.entries.Keys, r.bullets.entries.Keys);
    }
  }

  /** One bullet's step takes exactly one hp off the boxes when the bullet is
      consumed by a hit, that is removed without having flown out of play,
      and none otherwise. */
  lemma StepBulletHpLost(w: World, bid: string)
    requires Wf(w) && bid in w.bullets.entries
    ensures var r := StepBullet(w, bid);
      TotalHp(w.boxes) - TotalHp(r.boxes)
        == if bid !in r.bullets.entries && !Expired(Advance(w.bullets.entries[bid])) then 1 else 0
  {
    var moved := Advance(w.bullets.entries[bid]);
    if !Expired(moved) {
      match FirstHit(w.boxes.keys, w.boxes.entries, moved)
      case None =>
      case Some(i) =>
        DamageTotalHp(w.boxes, w.boxes.keys[i]);
    }
  }

  /** The bullets of `ks` that `after` no longer holds although their flight
      kept them in play: the ones a hit consumed. */
  ghost function Consumed(before: map<string, Bullet>, ks: seq<string>, after: map<string, Bullet>): set<string>
    requires forall k :: k in ks ==> k in before
  {
    set k | k in ks && k !in after && !Expired(Advance(before[k]))
  }

  /** The consumed bullets of a run are its first bullet, if its own step
      consumed it, and the consumed bullets of the rest of the run. */
  lemma ConsumedSplit(before: map<string, Bullet>, mid: map<string, Bullet>, ks: seq<string>, after: map<string, Bullet>)
    requires ks != [] && ks[0] !in ks[1..]
    requires forall k :: k in ks ==> k in before
    requires forall k :: k in ks[1..] ==> k in mid && mid[k] == before[k]
    requires ks[0] in after <==> ks[0] in mid
    ensures ks[0] !in Consumed(mid, ks[1..], after)
    ensures Consumed(before, ks, after) == Consumed(mid, ks[1..], after)
      + if ks[0] !in mid && !Expired(Advance(before[ks[0]])) then {ks[0]} else {}
    ensures |Consumed(before, ks, after)| == |Consumed(mid, ks[1..], after)|
      + if ks[0] !in mid && !Expired(Advance(before[ks[0]])) then 1 else 0
  {
    var all := Consumed(before, ks, after);
    var rest := Consumed(mid, ks[1..], after);
    var first: set<string> := if ks[0] !in mid && !Expired(Advance(before[ks[0]])) then {ks[0]} else {};
    forall k | k in all
      ensures k in rest + first
    {
      if k != ks[0] {
        assert k in ks[1..];
      }
    }
    forall k | k in rest + first
      ensures k in all
    {
      if k in rest {
        assert k in ks[1..] && mid[k] == before[k];
      }
    }
    assert all == rest + first;
    assert rest !! first;
  }

  /** Over a run of bullet steps the boxes lose exactly one hp per bullet a
      hit consumed: no bullet damages two boxes, nor one box twice, and no
      box is damaged without a bullet being consumed. */
  lemma {:induction false} StepAllHpLost(w: World, ks: seq<string>)
    requires Wf(w) && Distinct(ks) && forall k :: k in ks ==> k in w.bullets.entries
    ensures var r := StepAll(w, ks);
      TotalHp(w.boxes) - TotalHp(r.boxes) == |Consumed(w.bullets.entries, ks, r.bullets.entries)|
    decreases |ks|
  {
    if ks == [] {
      assert Consumed(w.bullets.entries, ks, w.bullets.entries) == {};
    } else {
      var bid := ks[0];
      var w1 := StepBullet(w, bid);
      assert forall k :: k in ks[1..] ==> k != bid;
      var r := StepAll(w1, ks[1..]);
      assert r == StepAll(w, ks);
      StepAllHpLost(w1, ks[1..]);
      StepBulletHpLost(w, bid);
      StepAllNoNewBullets(w1, ks[1..]);
      StepAllUntouched(w1, ks[1..]);
      ConsumedSplit(w.bullets.entries, w1.bullets.entries, ks, r.bullets.entries);
      assert |Consumed(w.bullets.entries, ks, r.bullets.entries)|
          == |Consumed(w1.bullets.entries, ks[1..], r.bullets.entries)| + (TotalHp(w.boxes) - TotalHp(w1.boxes));
    }
  }

  /** What one tick does to a well-formed world: the players stay; every
      bullet left was there before, has flown exactly one tick, is still in
      play and clear of every standing box; every bullet that flew out of
      play is gone; boxes are only worn down or removed, never added or
      moved; neither table is reordered; and the boxes lose exactly one hp
      per bullet a hit consumed. */
  lemma TickEffect(w: World)
    requires Wf(w)
    ensures var r := Tick(w);
      && r.players == w.players
      && (forall k :: k in r.bullets.entries ==>
            && k in w.bullets.entries
            && r.bullets.entries[k] == Advance(w.bullets.entries[k])
            && !Expired(r.bullets.entries[k])
            && ClearOf(r.bullets.entries[k], r.boxes))
      && (forall k :: k in w.bullets.entries && Expired(Advance(w.bullets.entries[k])) ==>
            k !in r.bullets.entries)
      && BoxesWorn(w.boxes, r.boxes)
      && r.boxes.keys == Keep(w.boxes.keys, r.boxes.entries.Keys)
      && r.bullets.keys == Keep(w.bullets.keys, r.bullets.entries.Keys)
      && TotalHp(w.boxes) - TotalHp(r.boxes) == |Consumed(w.bullets.entries, w.bullets.keys, r.bullets.entries)|
  {
    var ks := w.bullets.keys;
    StepAllNoNewBullets(w, ks);
    StepAllFlown(w, ks);
    StepAllDropsExpired(w, ks);
    StepAllWears(w, ks);
    StepAllClear(w, ks);
    StepAllKeepsOrder(w, ks);
    StepAllHpLost(w, ks);
  }
}
