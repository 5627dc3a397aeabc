# Game server world state

A Dafny model of the rules by which the multiplayer game server's `GameServer`
changes its world state. The world holds three tables keyed by string:

- `players`, by connection id: position and whether the player holds a gun;
- `boxes`: ten destructible boxes seeded at start-up, with position and hp;
- `bullets`: bullets in flight, with position, velocity and remaining life.

The server changes the world in six places:

- start-up seeding;
- a new connection;
- the MOVE, SHOOT and PICKUP input events;
- the periodic `Update` callback. It runs at most one simulation step per
  100 ms. The step walks a snapshot of the bullet keys. Each bullet flies one
  tick and then drops out if it is off the 800 x 400 field or out of life.
  Otherwise it damages the first box in insertion order that lies within 20
  units on both axes, and is consumed by that hit.

The model has three layers:

- `OrderedDict` models the insertion-ordered dictionary that the boxes and
  bullets live in. Assigning to an existing key keeps its place, a new key
  goes last, and a deletion removes the key from the order. `Decimal` models
  `str(n)` for the numbered keys.
- `GameWorld` and `Simulation` describe each transition as a function on a
  `World` value. They prove what each transition promises: which keys appear
  or disappear, which fields change and by how much, and that nothing else
  changes.
- `Server.GameServer` is the server itself: a class whose fields are the
  three tables and the time of the last step. Its handlers and `Update`
  change those fields in place, and `Update` keeps the source's loop over the
  bullet-key snapshot and its inner box loop with an early exit. Every method
  is proved to take the world to exactly the state that the matching function
  gives.

The handlers index the player table directly, so an event from an unknown
connection fails before anything is written. The handler methods model this
failure as `ok == false` with the state unchanged. The clock is a parameter
in milliseconds. Coordinates, velocities and hp are unbounded integers.

## Model

| member | source | states |
|---|---|---|
| OrderedDict.Dict.Put | main.py:47-53 | dictionary assignment: the entry is set; an existing key keeps its place in the order and a new key is appended last; a consistent table stays consistent |
| OrderedDict.Dict.Delete | main.py:75 | `del`: exactly that key's entry is gone and the key leaves the order while the other keys keep theirs; on a consistent table the count drops by one and the table stays consistent |
| OrderedDict.Without | main.py:82 | deleting from the order drops exactly that key and keeps the others distinct; when the key sits at position i of a distinct order, the result is the order with position i cut out, so every other key keeps its relative place |
| OrderedDict.Keep | main.py:75-82 | the keys of an order that lie in a given set, in their order: exactly those keys |
| OrderedDict.KeepWithout | main.py:75-82 | deleting one key from the order is keeping, in order, exactly the keys other than it |
| OrderedDict.KeepAll | main.py:71-73 | writing to keys that are already present leaves the order as it was |
| OrderedDict.KeepShrink | main.py:69-86 | deletions one after the other are one deletion of everything removed, in the original order |
| OrderedDict.DeleteAfterPut | main.py:71-75 | updating a bullet in place and then deleting it is the same as deleting it |
| OrderedDict.LenIsKeyCount | main.py:46 | `len` of a consistent table equals the number of keys in its iteration order |
| Decimal.NatToString | main.py:14 | `str(n)` for a natural number: at least one character, all decimal digits, a leading "0" only for zero itself, one character exactly below 10 |
| Decimal.NatToStringInjective | main.py:14 | different numbers render to different key strings, so the ten seeded ids are pairwise different |
| GameWorld.SeedBoxes | main.py:14 | the seeding comprehension over a list of ids stores a box under each listed id and under no other |
| GameWorld.SeedBoxesLayout | main.py:14 | the seeding comprehension stores box i under `str(i)` at (100 + 50 i, 100 + 30 i) with hp 3, the ids in order 0 to n-1, each once |
| GameWorld.InitialWorld | main.py:12-16 | the start-up state is well formed: consistent tables, every box alive |
| GameWorld.InitialWorldSeeded | main.py:12-16 | at start-up there are no players and no bullets, and the boxes are exactly "0" .. "9" in that order, box i at (100 + 50 i, 100 + 30 i) with hp 3 |
| GameWorld.Connect | main.py:27 | a connection puts the player at (400, 200) without a gun, adds exactly that key, and leaves the other players, the boxes and the bullets unchanged |
| GameWorld.ConnectAllPlayers | main.py:25-27 | after a run of connections the players are the earlier ones plus every new channel, each newcomer at the spawn point, and the rest of the world unchanged |
| GameWorld.Move | main.py:36-37 | MOVE sets the caller's x and y; its gun flag, the other players, the boxes and the bullets are unchanged |
| GameWorld.Pickup | main.py:60 | PICKUP gives the caller a gun; its position, the other players, the boxes and the bullets are unchanged |
| GameWorld.PickupIdempotent | main.py:58-60 | picking up twice gives the same world as picking up once |
| GameWorld.Shoot | main.py:46-53 | SHOOT stores, under `str(len(bullets))`, a bullet at the shooter's position with the given velocity and life 200; only that key is added and every other bullet, the players and the boxes are unchanged; a free id goes last in the bullet order, a taken one keeps its place |
| GameWorld.NextBulletId | main.py:46 | the new bullet's id is the bullet count in decimal: digits only, and "0" exactly when there are no bullets |
| GameWorld.NumberedIdsCount | main.py:46 | the ids "0" .. str(n - 1) are n different strings, none equal to str(n) |
| GameWorld.NextBulletIdFresh | main.py:46-47 | while the bullets are stored under "0" .. str(n - 1), that is no bullet has been deleted, the next id is free and the shot adds a bullet |
| GameWorld.ShootCount | main.py:46-47 | the bullet count grows by one when the computed id is free and stays the same when it names a live bullet |
| GameWorld.ShootOverwritesLiveBullet | main.py:46-47 | a concrete well-formed state, with bullet "0" gone and bullet "1" still flying, in which the next shot is stored as "1" and replaces the flying bullet |
| Simulation.Advance | main.py:71-73 | one tick of flight moves the bullet by its velocity, keeps the velocity and takes one life |
| Simulation.FlyAfter | main.py:71-73 | after n ticks of flight the bullet has moved n times its velocity and lost n lives |
| Simulation.FlyLifespan | main.py:73-74 | a bullet still in play after n ticks had more than n lives, so a bullet shot with life 200 is out of play by its 200th tick |
| Simulation.Expired | main.py:74 | a bullet stays in play exactly while it lies on the closed field [0, 800] x [0, 400] with at least one life |
| Simulation.Hits | main.py:79 | a bullet hits a box exactly when it lies strictly inside the 40 x 40 square centred on the box |
| Simulation.FirstHit | main.py:78-79 | the box loop picks a box within 20 units on both axes, and no earlier box in insertion order is in reach; none is picked only when no box is in reach |
| Simulation.Damage | main.py:80-82 | a hit takes one hp off the box and removes it once its hp is at most zero; every other box stays as it was; the box order is unchanged, or loses just that box |
| Simulation.DamageTotalHp | main.py:80-82 | a hit on a live box takes exactly one hp off the total of all boxes |
| Simulation.StepBullet | main.py:70-86 | one bullet's turn keeps the world well formed and the players unchanged, and it touches no other bullet |
| Simulation.StepBulletEffect | main.py:70-86 | the three outcomes of a bullet's turn: removed without a collision test, kept moved and clear of all boxes, or the first box hit loses exactly one hp and is removed at hp 0 while the other boxes are unchanged and the bullet is removed |
| Simulation.StepBulletWears | main.py:78-86 | a bullet's turn adds no box, moves no box and raises no hp |
| Simulation.StepBulletSurvivor | main.py:71-77 | a bullet that survives its turn has flown exactly one tick and is inside the field with life left |
| Simulation.StepBulletSurvivorClear | main.py:78-86 | a bullet that survives its turn overlaps no box left standing |
| Simulation.StepBulletDamage | main.py:78-86 | one bullet's turn takes at most one hp off the boxes, and only when the bullet is consumed |
| Simulation.StepAll | main.py:69 | handling the snapshot keys one after the other keeps the world well formed and the players unchanged |
| Simulation.StepAllNoNewBullets | main.py:69-86 | the loop creates no bullet |
| Simulation.StepAllUntouched | main.py:69 | bullets outside the snapshot are left exactly as they were |
| Simulation.StepAllFlown | main.py:71-77 | every snapshot bullet still flying afterwards has moved by exactly (dx, dy), has one life fewer and is inside the field with life left |
| Simulation.StepAllDropsExpired | main.py:74-77 | every snapshot bullet whose flight takes it off the field or out of life is gone |
| Simulation.StepAllWears | main.py:78-86 | the loop adds no box, moves no box and raises no hp |
| Simulation.ClearOfWorn | main.py:79 | hits depend on positions only, so wearing boxes down brings none into reach |
| Simulation.FirstStaysClear | main.py:78-86 | the first bullet handled, if still flying at the end, overlaps no box still standing |
| Simulation.StepAllClear | main.py:78-86 | every snapshot bullet still flying at the end overlaps no box still standing |
| Simulation.StepAllDamage | main.py:69-86 | over the loop the boxes lose no hp that is not matched by a removed bullet: hp lost is at most the number of bullets removed |
| Simulation.StepBulletHpLost | main.py:78-86 | one bullet's turn takes exactly one hp off the boxes when a hit consumes the bullet, and none when it flies out of play or stays in flight |
| Simulation.StepAllHpLost | main.py:69-86 | over the loop the boxes lose exactly one hp per snapshot bullet that a hit consumed, so no bullet damages two boxes or one box twice |
| Simulation.StepBulletKeepsOrder | main.py:70-86 | a bullet's turn reorders neither table: the boxes and bullets left are the old ones still present, in their old order |
| Simulation.StepAllKeepsOrder | main.py:69-86 | the loop reorders neither table, so later bullets meet the surviving boxes in their insertion order |
| Simulation.Tick | main.py:68-86 | a simulation step over the snapshot of all bullet keys keeps the world well formed and the players unchanged |
| Simulation.TickEffect | main.py:68-86 | after a step every bullet left was there before, has flown one tick and is in play and clear of all boxes; every bullet that flew out of play is gone; boxes are only worn or removed; neither table is reordered; the boxes lose exactly one hp per bullet a hit consumed |
| Server.FindFirstHit | main.py:78-79 | the box loop with its early exit returns exactly the first box hit in insertion order |
| Server.FlyBullet | main.py:70-86 | one pass of the bullet loop body, on a copy of the tables, produces exactly the bullet step |
| Server.GameServer.constructor | main.py:10-19 | the server starts in the seeded world, which is well formed, with the start-up time recorded |
| Server.GameServer.Connected | main.py:25-27 | the fields become the world after the connection, and the invariant holds |
| Server.GameServer.HandleMove | main.py:32-37 | an unknown caller fails and nothing changes; otherwise the fields become the world after MOVE |
| Server.GameServer.HandleShoot | main.py:42-53 | the id is computed first; an unknown caller then fails and nothing changes; otherwise the fields become the world after SHOOT |
| Server.GameServer.HandlePickup | main.py:58-60 | an unknown caller fails and nothing changes; otherwise the fields become the world after PICKUP |
| Server.GameServer.MoveBullet | main.py:70-86 | the loop body updates the fields to the bullet step of the old world and leaves the step time alone |
| Server.GameServer.Update | main.py:65-90 | within 100 ms of the last step nothing changes, the step time included; otherwise the fields become the simulation step of the old world and the step time becomes now; the invariant holds either way |

## Left out

- The network library's server and state store are not modelled: connection handling, the `access()` lock, event registration (main.py:18, 21-23) and `SendToAll` broadcasts. They are foreign code and concurrency, not world rules.
- `print` and `logging` output (main.py:7, 17, 28, 30, 38, 40, 54, 56, 61, 63, 76, 83, 85, 87, 89) is not modelled.
- `time.time()` (main.py:19, 66) is wall-clock input. The constructor and `Update` take the time in milliseconds as an integer parameter.
- Floating-point coordinates and times are not modelled. Positions, velocities and times are integers, so a fractional clock reading or velocity is not covered.
- Missing or non-numeric event payloads (`handler_kwargs.get` returning `None`, main.py:33-34, 43-44) are not modelled. The handlers take integers; the source does no validation to model.
- `str(channel)` is not modelled: the channel arrives as the string key it becomes, and the connection address is dropped.
- The `__main__` block (main.py:92-101) is process and network start-up.
- In-place mutation of the nested bullet and box records is not represented. Records are values here, and the body of the bullet loop works on copies of the two tables and writes them back, so aliasing between a table and a local variable does not arise; the resulting tables are the same.
