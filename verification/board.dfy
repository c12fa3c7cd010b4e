/**
  The Battleship field: its constants, cell and ship enumerations, the field
  record, the direction vectors, and the read-only queries (bounds, extent of a
  same-status run, the won test) together with clearing a field.

  The grid is indexed `entry[x][y]`; `x` grows to the RIGHT and `y` grows DOWN.
*/
module Board {
  import GridCount

  /** Ships in the standard fleet: carrier, battleship, submarine, cruiser, destroyer. */
  const N_SHIPS: nat := 5
  /** Width and height of the square field in tiles. */
  const FIELD_SIZE: nat := 10
  /** Most turns a game can take: one per tile. */
  const TURN_MAX: nat := FIELD_SIZE * FIELD_SIZE
  /** Sink turn of a ship that has not sunk. */
  const TURN_INVALID: int := -1
  /** Ship code of a square without a ship. */
  const EMPTY: int := -1

  /** CARRIER = 0, BATTLESHIP = 1, SUBMARINE = 2, CRUISER = 3, DESTROYER = 4. */
  type ShipId = s: int | 0 <= s < N_SHIPS

  /** What is known about a tile; `Error` is the failure answer of an attack, never a stored status. */
  datatype Status = Error | Free | Untried | Miss | Hit | Sunk

  /** The ship on a tile, if any. */
  datatype Occupant = Empty | Ship(id: ShipId)

  datatype Entry = Entry(status: Status, ship: Occupant)

  datatype View = Left | Right | Up | Down

  /**
    The whole board: the tile grid, each ship's remaining health (-1 before it
    is placed), the turns taken, and the turn each ship sank on.
  */
  datatype Field = Field(entry: seq<seq<Entry>>, health: seq<int>, turns: int, sinkTurn: seq<int>)

  /** The fixed array sizes of the record. */
  predicate Shaped(f: Field)
  {
    && GridCount.Rect(f.entry, FIELD_SIZE, FIELD_SIZE)
    && |f.health| == N_SHIPS
    && |f.sinkTurn| == N_SHIPS
  }

  /** Ship lengths, indexed by ship id. */
  function Length(s: ShipId): (r: nat)
    ensures 2 <= r <= 5 < FIELD_SIZE
    ensures s == 0 ==> r == 5
  {
    [5, 4, 3, 3, 2][s]
  }

  /** Sum of all ship lengths: the number of hits a game needs. */
  function FleetLength(): (r: nat)
    ensures r == 17
  {
    Length(0) + Length(1) + Length(2) + Length(3) + Length(4)
  }

  /** The integer the source stores for a tile's ship: EMPTY or the ship's id. */
  function ShipCode(o: Occupant): (c: int)
    ensures EMPTY <= c < N_SHIPS
    ensures c == EMPTY <==> o == Empty
  {
    match o
    case Empty => EMPTY
    case Ship(s) => s
  }

  /** Reads a stored ship code back. */
  function OccupantOf(c: int): (o: Occupant)
    requires EMPTY <= c < N_SHIPS
  {
    if c == EMPTY then Empty else Ship(c)
  }

  /** The code of a tile's ship determines the ship. */
  lemma ShipCodeRoundTrip(o: Occupant)
    ensures OccupantOf(ShipCode(o)) == o
  {
  }

  /** One step in the given direction, as (dx, dy). */
  function Vector(v: View): (d: (int, int))
    ensures -1 <= d.0 <= 1 && -1 <= d.1 <= 1
    ensures (d.0 == 0) != (d.1 == 0)
    ensures d.1 == 0 <==> v == Left || v == Right
    ensures d.0 + d.1 == (if v == Right || v == Down then 1 else -1)
  {
    match v
    case Left => (-1, 0)
    case Right => (1, 0)
    case Up => (0, -1)
    case Down => (0, 1)
  }

  predicate InBounds(x: int, y: int)
  {
    0 <= x < FIELD_SIZE && 0 <= y < FIELD_SIZE
  }

  /** The tile (x, y) exists and has status `s`. */
  predicate Holds(f: Field, x: int, y: int, s: Status)
    requires Shaped(f)
  {
    InBounds(x, y) && f.entry[x][y].status == s
  }

  /** The tile `t` steps from (x, y) in direction v. */
  function Along(v: View, x: int, y: int, t: int): (p: (int, int))
  {
    match v
    case Left => (x - t, y)
    case Right => (x + t, y)
    case Up => (x, y - t)
    case Down => (x, y + t)
  }

  /** (i, j) is one of the first n tiles from (x, y) in direction v, counting (x, y) itself. */
  predicate OnRun(v: View, x: int, y: int, n: int, i: int, j: int)
  {
    match v
    case Left => j == y && x - n < i <= x
    case Right => j == y && x <= i < x + n
    case Up => i == x && y - n < j <= y
    case Down => i == x && y <= j < y + n
  }

  /** Number of tiles from an in-bounds (x, y) to the edge in direction v, (x, y) included. */
  function Reach(v: View, x: int, y: int): (r: int)
    requires InBounds(x, y)
    ensures 1 <= r <= FIELD_SIZE
  {
    match v
    case Left => x + 1
    case Right => FIELD_SIZE - x
    case Up => y + 1
    case Down => FIELD_SIZE - y
  }

  /**
    Length of the run of tiles with status `s` that starts at (x, y) and
    continues in direction v; 0 when (x, y) is off the field.
  */
  function Extent(f: Field, v: View, x: int, y: int, s: Status): (r: nat)
    requires Shaped(f)
    ensures r <= (if InBounds(x, y) then Reach(v, x, y) else 0) <= FIELD_SIZE
    ensures r >= 1 <==> Holds(f, x, y, s)
    decreases if InBounds(x, y) then Reach(v, x, y) else 0
  {
    if Holds(f, x, y, s) then 1 + Extent(f, v, x + Vector(v).0, y + Vector(v).1, s) else 0
  }

  /** Reach counts the tiles up to the edge: the last one counted is on the field, the next is not. */
  lemma ReachIsDistanceToEdge(v: View, x: int, y: int)
    requires InBounds(x, y)
    ensures var last := Along(v, x, y, Reach(v, x, y) - 1); InBounds(last.0, last.1)
    ensures var past := Along(v, x, y, Reach(v, x, y)); !InBounds(past.0, past.1)
  {
  }

  /** Taking one step and then n more is taking n + 1 steps. */
  lemma AlongShift(v: View, x: int, y: int, n: int)
    ensures Along(v, x, y, n + 1) == Along(v, x + Vector(v).0, y + Vector(v).1, n)
  {
  }

  /** Every tile among the first Extent tiles of the run has the status. */
  lemma {:induction false} ExtentIsRun(f: Field, v: View, x: int, y: int, s: Status)
    requires Shaped(f)
    ensures forall i, j :: OnRun(v, x, y, Extent(f, v, x, y, s), i, j) ==> Holds(f, i, j, s)
    decreases if InBounds(x, y) then Reach(v, x, y) else 0
  {
    if Holds(f, x, y, s) {
      var x', y' := x + Vector(v).0, y + Vector(v).1;
      ExtentIsRun(f, v, x', y', s);
      var n := Extent(f, v, x', y', s);
      forall i, j | OnRun(v, x, y, n + 1, i, j)
        ensures Holds(f, i, j, s)
      {
        if (i, j) != (x, y) {
          assert OnRun(v, x', y', n, i, j);
        }
      }
    }
  }

  /** The tile just past the run is off the field or has another status. */
  lemma {:induction false} ExtentStops(f: Field, v: View, x: int, y: int, s: Status)
    requires Shaped(f)
    ensures !Holds(f, Along(v, x, y, Extent(f, v, x, y, s)).0, Along(v, x, y, Extent(f, v, x, y, s)).1, s)
    decreases if InBounds(x, y) then Reach(v, x, y) else 0
  {
    if Holds(f, x, y, s) {
      var x', y' := x + Vector(v).0, y + Vector(v).1;
      var n := Extent(f, v, x', y', s);
      ExtentStops(f, v, x', y', s);
      assert Extent(f, v, x, y, s) == n + 1;
      AlongShift(v, x, y, n);
    } else {
      assert Along(v, x, y, 0) == (x, y);
    }
  }

  /** A run of n tiles with the status from (x, y) makes the extent there at least n. */
  lemma ExtentCoversRun(f: Field, v: View, x: int, y: int, s: Status, n: nat)
    requires Shaped(f)
    requires forall t :: 0 <= t < n ==> Holds(f, Along(v, x, y, t).0, Along(v, x, y, t).1, s)
    ensures Extent(f, v, x, y, s) >= n
  {
    ExtentStops(f, v, x, y, s);
  }

  /** The grid with tile (i, j) replaced by e. */
  function SetEntry(g: seq<seq<Entry>>, i: int, j: int, e: Entry): (r: seq<seq<Entry>>)
    requires 0 <= i < |g| && 0 <= j < |g[i]|
    ensures |r| == |g| && forall a :: 0 <= a < |g| ==> |r[a]| == |g[a]|
    ensures r[i][j] == e
    ensures forall a, b :: 0 <= a < |g| && 0 <= b < |g[a]| && (a, b) != (i, j) ==> r[a][b] == g[a][b]
  {
    g[i := g[i][j := e]]
  }

  /** Every tile is FREE and holds no ship: the state placement starts from. */
  ghost predicate Blank(f: Field)
    requires Shaped(f)
  {
    forall x, y :: InBounds(x, y) ==> f.entry[x][y] == Entry(Free, Empty)
  }

  /** A fresh field: blank tiles, unplaced ships, no turns, nothing sunk. */
  function Clear(): (f: Field)
    ensures Shaped(f) && Blank(f)
    ensures forall s :: 0 <= s < N_SHIPS ==> f.health[s] == -1 && f.sinkTurn[s] == TURN_INVALID
    ensures f.turns == 0
  {
    Field(seq(FIELD_SIZE, _ => seq(FIELD_SIZE, _ => Entry(Free, Empty))),
          seq(N_SHIPS, _ => -1),
          0,
          seq(N_SHIPS, _ => TURN_INVALID))
  }

  /** No ship from index k on has positive health. */
  function AllDownFrom(health: seq<int>, k: nat): (r: bool)
    requires k <= |health|
    ensures r <==> forall s :: k <= s < |health| ==> health[s] <= 0
    decreases |health| - k
  {
    if k == |health| then true
    else if health[k] > 0 then false
    else AllDownFrom(health, k + 1)
  }

  /** The game is won when no ship has health left. */
  function IsWon(f: Field): (r: bool)
    requires Shaped(f)
    ensures r <==> forall s :: 0 <= s < N_SHIPS ==> f.health[s] <= 0
  {
    AllDownFrom(f.health, 0)
  }

  /**
    A cleared field already passes the won test, because every health is the
    -1 "not placed" sentinel; only a field with ships placed can be unwon.
  */
  lemma ClearedFieldIsWon()
    ensures IsWon(Clear())
  {
  }
}
