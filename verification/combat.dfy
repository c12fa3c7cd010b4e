/**
  Attacking a tile, and the invariant a field keeps from the moment it is
  readied until the game is won.

  Tile statuses only move forward: UNTRIED -> MISS, or UNTRIED -> HIT -> SUNK.
  A ship's health counts its untried tiles, and the turn counter counts the
  tried tiles, which is what bounds a game by TURN_MAX turns.
*/
module Combat {
  import opened Board
  import GridCount

  /** The answer of an attack (ERROR on failure) and the field afterwards. */
  datatype Strike = Strike(result: Status, field: Field)

  /** Every tile of ship s becomes SUNK; all other tiles are kept. */
  function SinkSweep(g: seq<seq<Entry>>, s: ShipId): (r: seq<seq<Entry>>)
    ensures |r| == |g| && forall i :: 0 <= i < |g| ==> |r[i]| == |g[i]|
    ensures forall i, j :: 0 <= i < |g| && 0 <= j < |g[i]| ==>
              r[i][j] == if g[i][j].ship == Ship(s) then Entry(Sunk, Ship(s)) else g[i][j]
  {
    seq(|g|, i requires 0 <= i < |g| =>
      seq(|g[i]|, j requires 0 <= j < |g[i]| =>
        if g[i][j].ship == Ship(s) then Entry(Sunk, Ship(s)) else g[i][j]))
  }

  /**
    Attacks tile (x, y). A tile off the field or already tried is an ERROR
    and the field is left as it was. Otherwise the turn counts; a tile without
    a ship becomes MISS; a ship tile becomes HIT and costs the ship one health,
    and when that health reaches zero every tile of the ship becomes SUNK and
    the ship's sink turn is recorded.
  */
  function Attack(f: Field, x: int, y: int): (r: Strike)
    requires Shaped(f)
    ensures Shaped(r.field)
    ensures r.result == Error <==> !Holds(f, x, y, Untried)
    ensures r.result == Error ==> r.field == f
    ensures r.result == Error || r.result == Miss || r.result == Hit || r.result == Sunk
    ensures r.result != Error ==>
              && r.field.turns == f.turns + 1
              && r.field.entry[x][y].status == r.result
              && (r.result == Miss <==> f.entry[x][y].ship == Empty)
    ensures forall i, j :: InBounds(i, j) ==> r.field.entry[i][j].ship == f.entry[i][j].ship
    ensures r.result == Miss ==>
              && r.field.health == f.health
              && r.field.sinkTurn == f.sinkTurn
              && forall i, j :: InBounds(i, j) && (i, j) != (x, y) ==> r.field.entry[i][j] == f.entry[i][j]
    ensures r.result == Hit || r.result == Sunk ==>
              var s := f.entry[x][y].ship.id;
              && f.entry[x][y].ship.Ship?
              && r.field.health == f.health[s := f.health[s] - 1]
              && (r.result == Sunk <==> f.health[s] - 1 <= 0)
    ensures r.result == Hit ==>
              && r.field.sinkTurn == f.sinkTurn
              && forall i, j :: InBounds(i, j) && (i, j) != (x, y) ==> r.field.entry[i][j] == f.entry[i][j]
    ensures r.result == Sunk ==>
              var s := f.entry[x][y].ship.id;
              && r.field.sinkTurn == f.sinkTurn[s := r.field.turns]
              && forall i, j :: InBounds(i, j) ==>
                   r.field.entry[i][j] == if f.entry[i][j].ship == Ship(s) then Entry(Sunk, Ship(s)) else f.entry[i][j]
  {
    if !InBounds(x, y) then Strike(Error, f)
    else if f.entry[x][y].status != Untried then Strike(Error, f)
    else
      var turns := f.turns + 1;
      match f.entry[x][y].ship
      case Empty =>
        Strike(Miss, f.(entry := SetEntry(f.entry, x, y, Entry(Miss, Empty)), turns := turns))
      case Ship(s) =>
        var g := SetEntry(f.entry, x, y, Entry(Hit, Ship(s)));
        var health := f.health[s := f.health[s] - 1];
        if health[s] <= 0 then
          Strike(Sunk, Field(SinkSweep(g, s), health, turns, f.sinkTurn[s := turns]))
        else
          Strike(Hit, Field(g, health, turns, f.sinkTurn))
  }

  /** Tiles of ship s, whatever their status. */
  function ShipOf(s: ShipId): (p: Entry -> bool)
  {
    (e: Entry) => e.ship == Ship(s)
  }

  /** Untried tiles of ship s. */
  function UntriedOf(s: ShipId): (p: Entry -> bool)
  {
    (e: Entry) => e.status == Untried && e.ship == Ship(s)
  }

  /** Tiles of ship s an attack has resolved: its hits, or all of it once sunk. */
  function TriedOf(s: ShipId): (p: Entry -> bool)
  {
    (e: Entry) => e.status != Untried && e.ship == Ship(s)
  }

  /** Tiles an attack has resolved. */
  function Tried(): (p: Entry -> bool)
  {
    (e: Entry) => e.status != Untried
  }

  /** A tile's status and ship agree: misses hold no ship, hits and sunk tiles hold one. */
  predicate Sound(e: Entry)
  {
    && (e.status == Untried || e.status == Miss || e.status == Hit || e.status == Sunk)
    && (e.status == Miss ==> e.ship == Empty)
    && (e.status == Hit || e.status == Sunk ==> e.ship.Ship?)
  }

  /** A hit tile belongs to a ship still afloat, a sunk tile to a ship with no health left. */
  predicate AgreesWithHealth(f: Field, e: Entry)
    requires Shaped(f)
  {
    e.ship.Ship? ==>
      && (e.status == Hit ==> f.health[e.ship.id] > 0)
      && (e.status == Sunk ==> f.health[e.ship.id] == 0)
  }

  /** A ship afloat has no sink turn; a sunk ship sank on a turn already taken. */
  predicate SinkTurnAgrees(f: Field, s: ShipId)
    requires Shaped(f)
  {
    if f.health[s] > 0 then f.sinkTurn[s] == TURN_INVALID else 1 <= f.sinkTurn[s] <= f.turns
  }

  /**
    The invariant of a readied field under play: each ship lies on exactly
    Length(s) tiles, its health counts those still untried, and the turn
    counter counts every tried tile.
  */
  ghost predicate Consistent(f: Field)
  {
    && Shaped(f)
    && (forall s :: 0 <= s < N_SHIPS ==> GridCount.Count(f.entry, ShipOf(s)) == Length(s))
    && (forall i, j :: InBounds(i, j) ==> Sound(f.entry[i][j]) && AgreesWithHealth(f, f.entry[i][j]))
    && (forall s :: 0 <= s < N_SHIPS ==> f.health[s] == GridCount.Count(f.entry, UntriedOf(s)))
    && (forall s :: 0 <= s < N_SHIPS ==> SinkTurnAgrees(f, s))
    && f.turns == GridCount.Count(f.entry, Tried())
  }

  /** Under the invariant a ship's health is its length less the tiles of it already tried. */
  lemma HealthIsLengthLessHits(f: Field, s: ShipId)
    requires Consistent(f)
    ensures f.health[s] == Length(s) - GridCount.Count(f.entry, TriedOf(s))
  {
    GridCount.CountSplit(f.entry, ShipOf(s), UntriedOf(s), TriedOf(s));
  }

  /** Under the invariant a HIT tile belongs to a ship that is afloat but has lost health. */
  lemma HitShipIsDamaged(f: Field, x: int, y: int)
    requires Consistent(f) && Holds(f, x, y, Hit)
    ensures f.entry[x][y].ship.Ship?
    ensures var s := f.entry[x][y].ship.id; 0 < f.health[s] < Length(s)
  {
    assert Sound(f.entry[x][y]) && AgreesWithHealth(f, f.entry[x][y]);
    var s := f.entry[x][y].ship.id;
    assert TriedOf(s)(f.entry[x][y]);
    GridCount.CountZero(f.entry, TriedOf(s));
    HealthIsLengthLessHits(f, s);
  }

  /** Under the invariant no health is negative and no more than TURN_MAX turns have been taken. */
  lemma ConsistentBounds(f: Field)
    requires Consistent(f)
    ensures 0 <= f.turns <= TURN_MAX
    ensures forall s :: 0 <= s < N_SHIPS ==> f.health[s] >= 0
  {
    GridCount.CountBound(f.entry, Tried(), FIELD_SIZE, FIELD_SIZE);
  }

  /** A successful attack on a consistent field keeps it consistent. */
  lemma AttackKeepsConsistent(f: Field, x: int, y: int)
    requires Consistent(f)
    ensures Consistent(Attack(f, x, y).field)
  {
    var r := Attack(f, x, y);
    if r.result != Error {
      var e := f.entry[x][y];
      match e.ship
      case Empty =>
        MissKeepsConsistent(f, x, y);
      case Ship(s) =>
        var g := SetEntry(f.entry, x, y, Entry(Hit, Ship(s)));
        forall t | 0 <= t < N_SHIPS
          ensures GridCount.Count(g, UntriedOf(t)) == GridCount.Count(f.entry, UntriedOf(t)) - (if t == s then 1 else 0)
        {
          GridCount.CountUpdate(f.entry, UntriedOf(t), x, y, Entry(Hit, Ship(s)));
        }
        GridCount.CountUpdate(f.entry, Tried(), x, y, Entry(Hit, Ship(s)));
        if r.result == Hit {
          HitKeepsConsistent(f, x, y, s, g);
        } else {
          SinkKeepsConsistent(f, x, y, s, g);
        }
    }
  }

  /** An attack moves no ship, so each ship keeps its number of tiles. */
  lemma AttackKeepsShipSizes(f: Field, x: int, y: int)
    requires Shaped(f)
    ensures forall t :: 0 <= t < N_SHIPS ==>
              GridCount.Count(Attack(f, x, y).field.entry, ShipOf(t)) == GridCount.Count(f.entry, ShipOf(t))
  {
    var r := Attack(f, x, y);
    forall t | 0 <= t < N_SHIPS
      ensures GridCount.Count(r.field.entry, ShipOf(t)) == GridCount.Count(f.entry, ShipOf(t))
    {
      GridCount.CountAgree(r.field.entry, ShipOf(t), f.entry, ShipOf(t));
    }
  }

  lemma MissKeepsConsistent(f: Field, x: int, y: int)
    requires Consistent(f) && Holds(f, x, y, Untried) && f.entry[x][y].ship == Empty
    ensures Consistent(Attack(f, x, y).field)
  {
    AttackKeepsShipSizes(f, x, y);
    var r := Attack(f, x, y).field;
    forall t | 0 <= t < N_SHIPS
      ensures r.health[t] == GridCount.Count(r.entry, UntriedOf(t))
    {
      GridCount.CountUpdate(f.entry, UntriedOf(t), x, y, Entry(Miss, Empty));
    }
    GridCount.CountUpdate(f.entry, Tried(), x, y, Entry(Miss, Empty));
    forall t | 0 <= t < N_SHIPS
      ensures SinkTurnAgrees(r, t)
    {
      assert SinkTurnAgrees(f, t);
    }
  }

  lemma HitKeepsConsistent(f: Field, x: int, y: int, s: ShipId, g: seq<seq<Entry>>)
    requires Consistent(f) && Holds(f, x, y, Untried) && f.entry[x][y].ship == Ship(s)
    requires g == SetEntry(f.entry, x, y, Entry(Hit, Ship(s)))
    requires forall t :: 0 <= t < N_SHIPS ==>
               GridCount.Count(g, UntriedOf(t)) == GridCount.Count(f.entry, UntriedOf(t)) - (if t == s then 1 else 0)
    requires GridCount.Count(g, Tried()) == GridCount.Count(f.entry, Tried()) + 1
    requires Attack(f, x, y).result == Hit
    ensures Consistent(Attack(f, x, y).field)
  {
    AttackKeepsShipSizes(f, x, y);
    var r := Attack(f, x, y).field;
    assert r.entry == g;
    forall t | 0 <= t < N_SHIPS
      ensures SinkTurnAgrees(r, t)
    {
      assert SinkTurnAgrees(f, t);
    }
    forall i, j | InBounds(i, j)
      ensures Sound(r.entry[i][j]) && AgreesWithHealth(r, r.entry[i][j])
    {
      assert AgreesWithHealth(f, f.entry[i][j]);
    }
  }

  lemma SinkKeepsConsistent(f: Field, x: int, y: int, s: ShipId, g: seq<seq<Entry>>)
    requires Consistent(f) && Holds(f, x, y, Untried) && f.entry[x][y].ship == Ship(s)
    requires g == SetEntry(f.entry, x, y, Entry(Hit, Ship(s)))
    requires forall t :: 0 <= t < N_SHIPS ==>
               GridCount.Count(g, UntriedOf(t)) == GridCount.Count(f.entry, UntriedOf(t)) - (if t == s then 1 else 0)
    requires GridCount.Count(g, Tried()) == GridCount.Count(f.entry, Tried()) + 1
    requires Attack(f, x, y).result == Sunk
    ensures Consistent(Attack(f, x, y).field)
  {
    AttackKeepsShipSizes(f, x, y);
    var r := Attack(f, x, y).field;
    assert r.entry == SinkSweep(g, s);
    assert r.health[s] == 0;
    forall t | 0 <= t < N_SHIPS
      ensures SinkTurnAgrees(r, t)
    {
      assert SinkTurnAgrees(f, t);
    }
    GridCount.CountZero(g, UntriedOf(s));
    assert forall i, j :: InBounds(i, j) && g[i][j].ship == Ship(s) ==> g[i][j].status != Untried;
    forall t | 0 <= t < N_SHIPS
      ensures GridCount.Count(r.entry, UntriedOf(t)) == GridCount.Count(g, UntriedOf(t))
    {
      GridCount.CountAgree(r.entry, UntriedOf(t), g, UntriedOf(t));
    }
    GridCount.CountAgree(r.entry, Tried(), g, Tried());
    forall i, j | InBounds(i, j)
      ensures Sound(r.entry[i][j]) && AgreesWithHealth(r, r.entry[i][j])
    {
      assert AgreesWithHealth(f, f.entry[i][j]);
    }
  }

  /** The status moves UNTRIED -> MISS, UNTRIED -> HIT, UNTRIED -> SUNK, HIT -> SUNK, or stays. */
  predicate Advances(before: Status, after: Status)
  {
    || before == after
    || (before == Untried && (after == Miss || after == Hit || after == Sunk))
    || (before == Hit && after == Sunk)
  }

  /**
    On a consistent field an attack moves every status forward only, and a
    successful one retires exactly the attacked tile from the untried tiles.
  */
  lemma AttackRetiresOneTile(f: Field, x: int, y: int)
    requires Consistent(f)
    ensures var r := Attack(f, x, y);
            forall i, j :: InBounds(i, j) ==> Advances(f.entry[i][j].status, r.field.entry[i][j].status)
    ensures var r := Attack(f, x, y);
            r.result != Error ==> forall i, j :: InBounds(i, j) ==>
              (r.field.entry[i][j].status == Untried <==> f.entry[i][j].status == Untried && (i, j) != (x, y))
  {
    var r := Attack(f, x, y);
    if r.result == Sunk {
      var s := f.entry[x][y].ship.id;
      var g := SetEntry(f.entry, x, y, Entry(Hit, Ship(s)));
      GridCount.CountUpdate(f.entry, UntriedOf(s), x, y, Entry(Hit, Ship(s)));
      GridCount.CountZero(g, UntriedOf(s));
      forall i, j | InBounds(i, j)
        ensures Advances(f.entry[i][j].status, r.field.entry[i][j].status)
        ensures r.field.entry[i][j].status == Untried <==> f.entry[i][j].status == Untried && (i, j) != (x, y)
      {
        assert Sound(f.entry[i][j]);
        if (i, j) != (x, y) && f.entry[i][j].ship == Ship(s) {
          assert g[i][j] == f.entry[i][j];
        }
      }
    } else if r.result != Error {
      forall i, j | InBounds(i, j)
        ensures Advances(f.entry[i][j].status, r.field.entry[i][j].status)
      {
      }
    }
  }

  /** On a consistent field the game is won exactly when every ship tile is SUNK. */
  lemma WonIffEveryShipTileSunk(f: Field)
    requires Consistent(f)
    ensures IsWon(f) <==> forall i, j :: InBounds(i, j) && f.entry[i][j].ship.Ship? ==> f.entry[i][j].status == Sunk
  {
    if IsWon(f) {
      forall i, j | InBounds(i, j) && f.entry[i][j].ship.Ship?
        ensures f.entry[i][j].status == Sunk
      {
        var s := f.entry[i][j].ship.id;
        GridCount.CountZero(f.entry, UntriedOf(s));
        assert Sound(f.entry[i][j]) && AgreesWithHealth(f, f.entry[i][j]);
      }
    } else {
      var s :| 0 <= s < N_SHIPS && f.health[s] > 0;
      GridCount.CountZero(f.entry, UntriedOf(s));
    }
  }

  /** A consistent field that is not won still has an untried tile, so the AI can always move. */
  lemma UnwonHasUntried(f: Field)
    requires Consistent(f) && !IsWon(f)
    ensures exists i, j :: InBounds(i, j) && f.entry[i][j].status == Untried
  {
    var s :| 0 <= s < N_SHIPS && f.health[s] > 0;
    GridCount.CountZero(f.entry, UntriedOf(s));
    var i, j :| 0 <= i < |f.entry| && 0 <= j < |f.entry[i]| && UntriedOf(s)(f.entry[i][j]);
    assert InBounds(i, j);
  }

  /** Total remaining health of the fleet. */
  function FleetHealth(f: Field): (h: int)
    requires Shaped(f)
  {
    f.health[0] + f.health[1] + f.health[2] + f.health[3] + f.health[4]
  }

  /** One attack costs the fleet at most one point of health. */
  lemma AttackCostsAtMostOne(f: Field, x: int, y: int)
    requires Shaped(f)
    ensures FleetHealth(f) - 1 <= FleetHealth(Attack(f, x, y).field) <= FleetHealth(f)
  {
  }
}
