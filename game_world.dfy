/**
  The world state of the game server and the transitions the connection and
  input handlers apply to it: players by connection id, destructible boxes
  and flying bullets, the last two in insertion order.
*/
module GameWorld {
  import opened OrderedDict
  import opened Decimal

  datatype Option<T> = None | Some(value: T)

  datatype Player = Player(x: int, y: int, hasGun: bool)
  datatype Box = Box(x: int, y: int, hp: int)
  datatype Bullet = Bullet(x: int, y: int, dx: int, dy: int, life: int)

  /** The game state: `players`, `boxes` and `bullets`. */
  datatype World = World(players: map<string, Player>, boxes: Dict<Box>, bullets: Dict<Bullet>)

  const SpawnX := 400
  const SpawnY := 200
  const BoxCount := 10
  const BoxHp := 3
  const BulletLife := 200

  /** What every reachable state satisfies: both ordered tables are
      consistent, and a box whose hp has dropped to zero is gone. */
  ghost predicate Wf(w: World) {
    && w.boxes.Valid()
    && w.bullets.Valid()
    && forall id :: id in w.boxes.entries ==> w.boxes.entries[id].hp > 0
  }

  /** The seeded position of box number `i`. */
  function BoxAt(i: nat): Box {
    Box(100 + 50 * i, 100 + 30 * i, BoxHp)
  }

  /** The ids `str(0)` .. `str(n - 1)`, in that order. */
  function SeedIds(n: nat): (ids: seq<string>)
    ensures |ids| == n
  {
    if n == 0 then [] else SeedIds(n - 1) + [NatToString(n - 1)]
  }

  /** Box i stored under `ids[i]`, the boxes inserted in order. */
  function SeedBoxes(ids: seq<string>): (d: Dict<Box>)
    ensures forall id :: id in d.entries <==> id in ids
    decreases |ids|
  {
    if ids == [] then Empty()
    else SeedBoxes(ids[..|ids| - 1]).Put(ids[|ids| - 1], BoxAt(|ids| - 1))
  }

  /** Position i of the seeded ids holds `str(i)`. */
  lemma {:induction false} SeedIdsAt(n: nat)
    ensures forall i :: 0 <= i < n ==> SeedIds(n)[i] == NatToString(i)
  {
    if n > 0 {
      SeedIdsAt(n - 1);
      assert forall i :: 0 <= i < n - 1 ==> SeedIds(n)[i] == SeedIds(n - 1)[i];
    }
  }

  /** The next number's id is not among the ids of the smaller numbers. */
  lemma SeedIdFresh(n: nat)
    ensures NatToString(n) !in SeedIds(n)
  {
    SeedIdsAt(n);
    forall i | 0 <= i < n
      ensures SeedIds(n)[i] != NatToString(n)
    {
      if SeedIds(n)[i] == NatToString(n) {
        NatToStringInjective(i, n);
      }
    }
  }

  /** Seeding `n` boxes gives the ids `str(0)` .. `str(n - 1)` in order, each
      once, box i at its seeded position. */
  lemma {:induction false} SeedBoxesLayout(n: nat)
    ensures SeedBoxes(SeedIds(n)).Valid() && SeedBoxes(SeedIds(n)).keys == SeedIds(n)
    ensures forall i :: 0 <= i < n ==> SeedBoxes(SeedIds(n)).entries[SeedIds(n)[i]] == BoxAt(i)
  {
    if n > 0 {
      var ids := SeedIds(n);
      var prev := SeedBoxes(SeedIds(n - 1));
      SeedBoxesLayout(n - 1);
      var id := NatToString(n - 1);
      SeedIdFresh(n - 1);
      assert ids[..n - 1] == SeedIds(n - 1) && ids[n - 1] == id;
      assert SeedBoxes(ids) == prev.Put(id, BoxAt(n - 1));
      forall i | 0 <= i < n - 1
        ensures SeedBoxes(ids).entries[ids[i]] == BoxAt(i)
      {
        assert ids[i] == SeedIds(n - 1)[i] != id;
      }
    }
  }

  /** The state the server starts with. */
  function InitialWorld(): (w: World)
    ensures Wf(w)
  {
    var boxes := SeedBoxes(SeedIds(BoxCount));
    SeedBoxesLayout(BoxCount);
    SeededBoxesAlive(boxes);
    World(map[], boxes, Empty())
  }

  /** The initial state holds no players and no bullets, and the ten boxes
      "0" .. "9" in that order, box i at (100 + 50 i, 100 + 30 i) with hp 3. */
  lemma InitialWorldSeeded()
    ensures InitialWorld().players == map[] && InitialWorld().bullets.Len() == 0
    ensures InitialWorld().boxes.keys == ["0", "1", "2", "3", "4", "5", "6", "7", "8", "9"]
    ensures forall i :: 0 <= i < 10 ==>
      NatToString(i) in InitialWorld().boxes.entries &&
      InitialWorld().boxes.entries[NatToString(i)] == Box(100 + 50 * i, 100 + 30 * i, 3)
  {
    SeedBoxesLayout(BoxCount);
    SeedIdsAt(BoxCount);
    SeedIdsTen();
  }

  /** The ten seeded ids, written out. */
  lemma SeedIdsTen()
    ensures SeedIds(10) == ["0", "1", "2", "3", "4", "5", "6", "7", "8", "9"]
  {
  }

  lemma SeededBoxesAlive(boxes: Dict<Box>)
    requires boxes.Valid()
    requires forall i :: 0 <= i < |boxes.keys| ==> boxes.entries[boxes.keys[i]] == BoxAt(i)
    ensures forall id :: id in boxes.entries ==> boxes.entries[id].hp > 0
  {
  }

  /** A new connection: the player appears at the spawn point without a gun. */
  function Connect(w: World, c: string): (r: World)
    ensures Wf(w) ==> Wf(r)
    ensures r.players.Keys == w.players.Keys + {c}
    ensures r.players[c] == Player(SpawnX, SpawnY, false)
    ensures forall p :: p in w.players && p != c ==> r.players[p] == w.players[p]
    ensures r.boxes == w.boxes && r.bullets == w.bullets
  {
    w.(players := w.players[c := Player(SpawnX, SpawnY, false)])
  }

  /** MOVE: the caller's position is overwritten, unchecked. */
  function Move(w: World, c: string, x: int, y: int): (r: World)
    requires c in w.players
    ensures Wf(w) ==> Wf(r)
    ensures r.players.Keys == w.players.Keys
    ensures r.players[c].x == x && r.players[c].y == y && r.players[c].hasGun == w.players[c].hasGun
    ensures forall p :: p in w.players && p != c ==> r.players[p] == w.players[p]
    ensures r.boxes == w.boxes && r.bullets == w.bullets
  {
    w.(players := w.players[c := w.players[c].(x := x, y := y)])
  }

  /** PICKUP: the caller holds a gun, wherever it stands. */
  function Pickup(w: World, c: string): (r: World)
    requires c in w.players
    ensures Wf(w) ==> Wf(r)
    ensures r.players.Keys == w.players.Keys
    ensures r.players[c].hasGun
    ensures r.players[c].x == w.players[c].x && r.players[c].y == w.players[c].y
    ensures forall p :: p in w.players && p != c ==> r.players[p] == w.players[p]
    ensures r.boxes == w.boxes && r.bullets == w.bullets
  {
    w.(players := w.players[c := w.players[c].(hasGun := true)])
  }

  /** The key a new bullet is stored under: the current number of bullets,
      written in decimal; "0" exactly when there are none. */
  function NextBulletId(w: World): (id: string)
    ensures 1 <= |id| && forall i :: 0 <= i < |id| ==> '0' <= id[i] <= '9'
    ensures id[0] == '0' <==> w.bullets.Len() == 0
  {
    NatToString(w.bullets.Len())
  }

  /** The ids "0" .. str(n - 1). */
  ghost function NumberedIds(n: nat): set<string> {
    set i | 0 <= i < n :: NatToString(i)
  }

  /** There are `n` of them: no two numbers share an id. */
  lemma {:induction false} NumberedIdsCount(n: nat)
    ensures |NumberedIds(n)| == n
    ensures NatToString(n) !in NumberedIds(n)
  {
    if NatToString(n) in NumberedIds(n) {
      var i :| 0 <= i < n && NatToString(i) == NatToString(n);
      NatToStringInjective(i, n);
    }
    if n > 0 {
      NumberedIdsCount(n - 1);
      assert NumberedIds(n) == NumberedIds(n - 1) + {NatToString(n - 1)};
    }
  }

  /** As long as no bullet has been deleted, so that the bullets are stored
      under "0" .. str(n - 1), the next id is free. */
  lemma NextBulletIdFresh(w: World)
    requires Wf(w)
    requires forall i :: 0 <= i < w.bullets.Len() ==> NatToString(i) in w.bullets.entries
    ensures NextBulletId(w) !in w.bullets.entries
  {
    NumberedIdsCount(w.bullets.Len());
    assert NumberedIds(w.bullets.Len()) <= w.bullets.entries.Keys;
    SubsetOfSameSize(NumberedIds(w.bullets.Len()), w.bullets.entries.Keys);
  }

  /** A subset as large as the whole set is the whole set. */
  lemma SubsetOfSameSize(a: set<string>, b: set<string>)
    requires a <= b && |a| == |b|
    ensures a == b
  {
    var rest := b - a;
    assert b == a + rest && a !! rest;
  }

  /** SHOOT: a bullet at the shooter's position with the given velocity and
      full life, stored under `NextBulletId`. */
  function Shoot(w: World, c: string, dx: int, dy: int): (r: World)
    requires c in w.players
    ensures Wf(w) ==> Wf(r)
    ensures r.players == w.players && r.boxes == w.boxes
    ensures r.bullets.entries.Keys == w.bullets.entries.Keys + {NextBulletId(w)}
    ensures NextBulletId(w) in w.bullets.entries ==> r.bullets.keys == w.bullets.keys
    ensures NextBulletId(w) !in w.bullets.entries ==> r.bullets.keys == w.bullets.keys + [NextBulletId(w)]
    ensures r.bullets.entries[NextBulletId(w)]
         == Bullet(w.players[c].x, w.players[c].y, dx, dy, BulletLife)
    ensures forall b :: b in w.bullets.entries && b != NextBulletId(w) ==>
      r.bullets.entries[b] == w.bullets.entries[b]
  {
    var p := w.players[c];
    w.(bullets := w.bullets.Put(NextBulletId(w), Bullet(p.x, p.y, dx, dy, BulletLife)))
  }

  /** Picking up twice is picking up once. */
  lemma PickupIdempotent(w: World, c: string)
    requires c in w.players
    ensures Pickup(Pickup(w, c), c) == Pickup(w, c)
  {
  }

  /** The bullet count grows by one when the computed id is free; when an
      earlier deletion left a live bullet under that id, the new bullet
      replaces it and the count stays the same. */
  lemma ShootCount(w: World, c: string, dx: int, dy: int)
    requires Wf(w) && c in w.players
    ensures NextBulletId(w) !in w.bullets.entries ==>
      Shoot(w, c, dx, dy).bullets.Len() == w.bullets.Len() + 1
    ensures NextBulletId(w) in w.bullets.entries ==>
      Shoot(w, c, dx, dy).bullets.Len() == w.bullets.Len()
  {
  }

  /** The id clash is reachable from a plain state: after bullet "0" is gone
      and bullet "1" is still flying, the next shot is stored as "1" and the
      flying bullet is lost. */
  lemma ShootOverwritesLiveBullet(c: string, p: Player, flying: Bullet, dx: int, dy: int)
    ensures var w := World(map[c := p], Empty(), Empty().Put("1", flying));
      && Wf(w)
      && NextBulletId(w) == "1"
      && Shoot(w, c, dx, dy).bullets.Len() == 1
      && Shoot(w, c, dx, dy).bullets.entries["1"] == Bullet(p.x, p.y, dx, dy, BulletLife)
  {
    var w := World(map[c := p], Empty(), Empty().Put("1", flying));
    assert w.bullets.Len() == 1;
    assert NatToString(1) == "1";
  }

  /** A run of connections with no other events in between. */
  function ConnectAll(w: World, cs: seq<string>): World
    decreases |cs|
  {
    if cs == [] then w else ConnectAll(Connect(w, cs[0]), cs[1..])
  }

  /** After a run of connections the players are the earlier ones plus every
      connection seen, each newcomer at the spawn point without a gun. */
  lemma {:induction false} ConnectAllPlayers(w: World, cs: seq<string>)
    ensures ConnectAll(w, cs).players.Keys == w.players.Keys + set c | c in cs
    ensures forall c :: c in cs ==> ConnectAll(w, cs).players[c] == Player(SpawnX, SpawnY, false)
    ensures forall p :: p in w.players && p !in cs ==> ConnectAll(w, cs).players[p] == w.players[p]
    ensures ConnectAll(w, cs).boxes == w.boxes && ConnectAll(w, cs).bullets == w.bullets
    decreases |cs|
  {
    if cs != [] {
      ConnectAllPlayers(Connect(w, cs[0]), cs[1..]);
      assert cs == [cs[0]] + cs[1..];
      assert (set c | c in cs) == {cs[0]} + set c | c in cs[1..];
    }
  }
}
