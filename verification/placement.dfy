/**
  Putting the fleet on a cleared field: placing one ship along a run of FREE
  tiles, and the random loading of all five ships followed by readying the
  field. The random number generator is an input: `rolls` lists the values
  successive `rand()` calls return.
*/
module Placement {
  import opened Board

  /** A ship's direction and the tile it extends from. */
  datatype Anchor = Anchor(view: View, x: int, y: int)

  /** Outcome of one placement: whether it succeeded, and the field afterwards. */
  datatype Placed = Placed(ok: bool, field: Field)

  /** Outcome of retrying one ship: out of random draws, or placed at `anchor`. */
  datatype Try = Exhausted | Landed(field: Field, anchor: Anchor, rest: seq<nat>)

  /** Outcome of loading ships: out of random draws, or placed at `anchors` in ship order. */
  datatype Fleet = OutOfDraws | Loaded(field: Field, anchors: seq<Anchor>)

  /** Tiles still FREE hold no ship; placement relies on this. */
  ghost predicate FreeIsEmpty(f: Field)
    requires Shaped(f)
  {
    forall x, y :: InBounds(x, y) && f.entry[x][y].status == Free ==> f.entry[x][y].ship == Empty
  }

  /** The tiles ship s covers when placed at anchor a. */
  predicate Covers(a: Anchor, s: ShipId, i: int, j: int)
  {
    OnRun(a.view, a.x, a.y, Length(s), i, j)
  }

  /**
    f' is f with ship s written onto the tiles of anchor a, all of which were
    FREE in f, and with s's health set to its length; nothing else differs.
  */
  ghost predicate Claims(f: Field, f': Field, a: Anchor, s: ShipId)
    requires Shaped(f) && Shaped(f')
  {
    && (forall i, j :: Covers(a, s, i, j) ==> Holds(f, i, j, Free))
    && (forall i, j :: InBounds(i, j) ==>
          f'.entry[i][j] == if Covers(a, s, i, j) then Entry(Untried, Ship(s)) else f.entry[i][j])
    && f'.health == f.health[s := Length(s)]
    && f'.turns == f.turns
    && f'.sinkTurn == f.sinkTurn
  }

  /**
    Writes ship s onto the n tiles from (i, j) in direction v, one at a time,
    giving up at the first tile that already holds a ship (the tiles written
    before it stay written).
  */
  function WriteShip(g: seq<seq<Entry>>, v: View, i: int, j: int, s: ShipId, n: nat): (r: (bool, seq<seq<Entry>>))
    requires GridCount.Rect(g, FIELD_SIZE, FIELD_SIZE)
    requires forall a, b :: OnRun(v, i, j, n, a, b) ==> InBounds(a, b)
    ensures GridCount.Rect(r.1, FIELD_SIZE, FIELD_SIZE)
    ensures r.0 <==> forall a, b :: OnRun(v, i, j, n, a, b) && InBounds(a, b) ==> g[a][b].ship == Empty
    ensures r.0 ==> forall a, b :: InBounds(a, b) ==>
              r.1[a][b] == if OnRun(v, i, j, n, a, b) then Entry(Untried, Ship(s)) else g[a][b]
    decreases n
  {
    if n == 0 then (true, g)
    else
      assert OnRun(v, i, j, n, i, j) && InBounds(i, j);
      if g[i][j].ship != Empty then (false, g)
      else
        var i', j' := i + Vector(v).0, j + Vector(v).1;
        assert forall a, b :: OnRun(v, i', j', n - 1, a, b) ==> OnRun(v, i, j, n, a, b) && (a, b) != (i, j);
        assert forall a, b :: OnRun(v, i, j, n, a, b) ==> (a, b) == (i, j) || OnRun(v, i', j', n - 1, a, b);
        WriteShip(SetEntry(g, i, j, Entry(Untried, Ship(s))), v, i', j', s, n - 1)
  }

  /**
    Places ship s from (x, y) in direction v when the FREE run there is at
    least as long as the ship; otherwise reports failure and changes nothing.
  */
  function PlaceShip(f: Field, v: View, x: int, y: int, s: ShipId): (r: Placed)
    requires Shaped(f)
    ensures Shaped(r.field)
    ensures Extent(f, v, x, y, Free) < Length(s) ==> !r.ok && r.field == f
    ensures FreeIsEmpty(f) ==> (r.ok <==> Extent(f, v, x, y, Free) >= Length(s))
    ensures FreeIsEmpty(f) && !r.ok ==> r.field == f
    ensures r.ok ==> Claims(f, r.field, Anchor(v, x, y), s)
    ensures !r.ok ==> r.field.health == f.health && r.field.turns == f.turns && r.field.sinkTurn == f.sinkTurn
  {
    var length := Length(s);
    if Extent(f, v, x, y, Free) < length then Placed(false, f)
    else
      ExtentIsRun(f, v, x, y, Free);
      assert forall a, b :: OnRun(v, x, y, length, a, b) ==> OnRun(v, x, y, Extent(f, v, x, y, Free), a, b);
      var w := WriteShip(f.entry, v, x, y, s, length);
      if !w.0 then Placed(false, f.(entry := w.1))
      else Placed(true, f.(entry := w.1, health := f.health[s := length]))
  }

  /** FREE tiles stay ship-free through a placement. */
  lemma PlaceKeepsFreeEmpty(f: Field, v: View, x: int, y: int, s: ShipId)
    requires Shaped(f) && FreeIsEmpty(f)
    ensures FreeIsEmpty(PlaceShip(f, v, x, y, s).field)
  {
  }

  /** The anchor the source draws from three rand() values. */
  function Draw(s: ShipId, rx: nat, ry: nat, rv: nat): (a: Anchor)
    ensures 0 <= a.x <= FIELD_SIZE - Length(s) && 0 <= a.y <= FIELD_SIZE - Length(s)
    ensures a.view == Right || a.view == Down
  {
    var anchor := FIELD_SIZE - Length(s) + 1;
    Anchor(if rv % 2 != 0 then Right else Down, rx % anchor, ry % anchor)
  }

  /** Anchors inside the range Draw produces. */
  predicate InRange(a: Anchor, s: ShipId)
  {
    && (a.view == Right || a.view == Down)
    && 0 <= a.x <= FIELD_SIZE - Length(s)
    && 0 <= a.y <= FIELD_SIZE - Length(s)
  }

  /** A ship anchored in range lies entirely on the field. */
  lemma InRangeFits(a: Anchor, s: ShipId)
    requires InRange(a, s)
    ensures forall i, j :: Covers(a, s, i, j) ==> InBounds(i, j)
  {
  }

  /**
    Draws anchors for ship s until one places it. A finite list of rand()
    values stands in for the generator; running out of them is `Exhausted`.
  */
  function PlaceRetrying(f: Field, s: ShipId, rolls: seq<nat>): (r: Try)
    requires Shaped(f) && FreeIsEmpty(f)
    ensures r.Landed? ==> Shaped(r.field) && Claims(f, r.field, r.anchor, s) && InRange(r.anchor, s)
    decreases |rolls|
  {
    if |rolls| < 3 then Exhausted
    else
      var a := Draw(s, rolls[0], rolls[1], rolls[2]);
      var p := PlaceShip(f, a.view, a.x, a.y, s);
      if p.ok then Landed(p.field, a, rolls[3..])
      else PlaceRetrying(p.field, s, rolls[3..])
  }

  /** The n-th anchor the retry loop draws for ship s, from rolls 3n, 3n+1 and 3n+2. */
  function NthDraw(s: ShipId, rolls: seq<nat>, n: nat): (a: Anchor)
    requires 3 * n + 3 <= |rolls|
    ensures InRange(a, s)
  {
    Draw(s, rolls[3 * n], rolls[3 * n + 1], rolls[3 * n + 2])
  }

  /** The FREE run at anchor a is long enough for ship s. */
  predicate Fits(f: Field, a: Anchor, s: ShipId)
    requires Shaped(f)
  {
    Extent(f, a.view, a.x, a.y, Free) >= Length(s)
  }

  /** Dropping the first three rolls moves every later draw one place forward. */
  lemma NthDrawShift(s: ShipId, rolls: seq<nat>, n: nat)
    requires 3 * (n + 1) + 3 <= |rolls|
    ensures NthDraw(s, rolls[3..], n) == NthDraw(s, rolls, n + 1)
  {
    var rest := rolls[3..];
    assert rest[3 * n] == rolls[3 * (n + 1)];
    assert rest[3 * n + 1] == rolls[3 * (n + 1) + 1];
    assert rest[3 * n + 2] == rolls[3 * (n + 1) + 2];
  }

  /** One round of the loop: land on the first draw if it fits, otherwise retry on the same field. */
  lemma RetryStep(f: Field, s: ShipId, rolls: seq<nat>)
    requires Shaped(f) && FreeIsEmpty(f) && |rolls| >= 3
    ensures var a := NthDraw(s, rolls, 0);
            var r := PlaceRetrying(f, s, rolls);
            Fits(f, a, s) ==>
              && r.Landed? && r.anchor == a && r.rest == rolls[3..]
              && r.field == PlaceShip(f, a.view, a.x, a.y, s).field
    ensures !Fits(f, NthDraw(s, rolls, 0), s) ==> PlaceRetrying(f, s, rolls) == PlaceRetrying(f, s, rolls[3..])
  {
    var a := NthDraw(s, rolls, 0);
    assert Draw(s, rolls[0], rolls[1], rolls[2]) == a;
    var p := PlaceShip(f, a.view, a.x, a.y, s);
    assert p.ok <==> Fits(f, a, s);
    if p.ok {
      assert PlaceRetrying(f, s, rolls) == Landed(p.field, a, rolls[3..]);
    } else {
      assert p.field == f;
      assert PlaceRetrying(f, s, rolls) == PlaceRetrying(p.field, s, rolls[3..]);
    }
  }

  /** The retry loop runs out of draws exactly when no drawn anchor fits. */
  lemma {:induction false} PlaceRetryingExhausted(f: Field, s: ShipId, rolls: seq<nat>)
    requires Shaped(f) && FreeIsEmpty(f)
    ensures PlaceRetrying(f, s, rolls).Exhausted? <==>
            forall n: nat :: 3 * n + 3 <= |rolls| ==> !Fits(f, NthDraw(s, rolls, n), s)
    decreases |rolls|
  {
    if |rolls| >= 3 {
      RetryStep(f, s, rolls);
      var rest := rolls[3..];
      PlaceRetryingExhausted(f, s, rest);
      forall n: nat | 3 * n + 3 <= |rest|
        ensures NthDraw(s, rest, n) == NthDraw(s, rolls, n + 1)
      {
        NthDrawShift(s, rolls, n);
      }
      if PlaceRetrying(f, s, rolls).Exhausted? {
        forall n: nat | 3 * n + 3 <= |rolls|
          ensures !Fits(f, NthDraw(s, rolls, n), s)
        {
          if n > 0 {
            assert NthDraw(s, rest, n - 1) == NthDraw(s, rolls, n);
          }
        }
      }
    }
  }

  /** Draw n is the first of the draws from `rolls` whose anchor fits ship s. */
  predicate FirstFit(f: Field, s: ShipId, rolls: seq<nat>, n: nat)
    requires Shaped(f)
  {
    && 3 * n + 3 <= |rolls|
    && Fits(f, NthDraw(s, rolls, n), s)
    && forall m: nat :: m < n ==> !Fits(f, NthDraw(s, rolls, m), s)
  }

  /** A first fit among the later draws, after a first draw that does not fit, is one place further on. */
  lemma FirstFitShift(f: Field, s: ShipId, rolls: seq<nat>, n: nat)
    requires Shaped(f) && |rolls| >= 3 && FirstFit(f, s, rolls[3..], n)
    requires !Fits(f, NthDraw(s, rolls, 0), s)
    ensures FirstFit(f, s, rolls, n + 1)
    ensures NthDraw(s, rolls[3..], n) == NthDraw(s, rolls, n + 1)
    ensures rolls[3..][3 * n + 3..] == rolls[3 * (n + 1) + 3..]
  {
    NthDrawShift(s, rolls, n);
    forall m: nat | m < n + 1
      ensures !Fits(f, NthDraw(s, rolls, m), s)
    {
      if m > 0 {
        NthDrawShift(s, rolls, m - 1);
      }
    }
  }

  /**
    When the retry loop lands, it lands on the first drawn anchor that fits,
    and leaves the rolls after that draw for the next ship.
  */
  lemma {:induction false} PlaceRetryingFirstFit(f: Field, s: ShipId, rolls: seq<nat>)
    requires Shaped(f) && FreeIsEmpty(f)
    ensures var r := PlaceRetrying(f, s, rolls);
            r.Landed? ==> exists n: nat ::
              && FirstFit(f, s, rolls, n)
              && r.anchor == NthDraw(s, rolls, n)
              && r.rest == rolls[3 * n + 3..]
    decreases |rolls|
  {
    var r := PlaceRetrying(f, s, rolls);
    if |rolls| >= 3 && r.Landed? {
      RetryStep(f, s, rolls);
      var rest := rolls[3..];
      if Fits(f, NthDraw(s, rolls, 0), s) {
        assert FirstFit(f, s, rolls, 0) && r.rest == rolls[3 * 0 + 3..];
      } else {
        PlaceRetryingFirstFit(f, s, rest);
        var n: nat :| FirstFit(f, s, rest, n) && r.anchor == NthDraw(s, rest, n) && r.rest == rest[3 * n + 3..];
        FirstFitShift(f, s, rolls, n);
      }
    }
  }

  /**
    Ships below k are on the field and nothing else is: every tile is either
    FREE without a ship, or claimed by a ship below k.
  */
  ghost predicate PlacedBelow(f: Field, k: int)
    requires Shaped(f)
  {
    forall i, j :: InBounds(i, j) ==>
      && (f.entry[i][j].status == Free <==> f.entry[i][j].ship == Empty)
      && (f.entry[i][j].ship.Ship? ==> f.entry[i][j].ship.id < k)
  }

  /** A tile claimed by one of the ships k, k+1, ... */
  predicate Newer(e: Entry, k: int)
  {
    e.status == Untried && e.ship.Ship? && e.ship.id >= k
  }

  /** Places ships k, k+1, ..., N_SHIPS-1 in that order. */
  function PlaceFleet(f: Field, k: nat, rolls: seq<nat>): (r: Fleet)
    requires k <= N_SHIPS && Shaped(f) && FreeIsEmpty(f)
    ensures r.Loaded? ==> Shaped(r.field) && FreeIsEmpty(r.field) && |r.anchors| == N_SHIPS - k
    ensures r.Loaded? ==> forall n :: 0 <= n < |r.anchors| ==> InRange(r.anchors[n], k + n)
    ensures r.Loaded? ==> forall s :: 0 <= s < N_SHIPS ==>
              r.field.health[s] == if s < k then f.health[s] else Length(s)
    ensures r.Loaded? ==> r.field.turns == f.turns && r.field.sinkTurn == f.sinkTurn
    ensures r.Loaded? && PlacedBelow(f, k) ==> PlacedBelow(r.field, N_SHIPS)
    ensures r.Loaded? && PlacedBelow(f, k) ==> forall i, j :: InBounds(i, j) && f.entry[i][j].status != Free ==>
              r.field.entry[i][j] == f.entry[i][j]
    ensures r.Loaded? && PlacedBelow(f, k) ==> forall s, i, j :: k <= s < N_SHIPS && InBounds(i, j) ==>
              (r.field.entry[i][j].ship == Ship(s) <==> Covers(r.anchors[s - k], s, i, j))
    ensures r.Loaded? ==> forall i, j :: InBounds(i, j) ==> r.field.entry[i][j] == f.entry[i][j] || Newer(r.field.entry[i][j], k)
    decreases N_SHIPS - k
  {
    if k == N_SHIPS then Loaded(f, [])
    else
      match PlaceRetrying(f, k, rolls)
      case Exhausted => OutOfDraws
      case Landed(f1, a, rest) =>
        PlaceFleetStep(f, f1, a, k);
        match PlaceFleet(f1, k + 1, rest)
        case OutOfDraws => OutOfDraws
        case Loaded(g, anchors) =>
          assert FleetPost(f1, k + 1, g, anchors);
          FleetCons(f, f1, a, k, g, anchors);
          Loaded(g, [a] + anchors)
  }

  /** What PlaceFleet promises of the field g and anchors it loads from f, ships k on. */
  ghost predicate FleetPost(f: Field, k: nat, g: Field, anchors: seq<Anchor>)
    requires k <= N_SHIPS && Shaped(f)
  {
    && Shaped(g) && FreeIsEmpty(g) && |anchors| == N_SHIPS - k
    && (forall n :: 0 <= n < |anchors| ==> InRange(anchors[n], k + n))
    && (forall s :: 0 <= s < N_SHIPS ==> g.health[s] == if s < k then f.health[s] else Length(s))
    && g.turns == f.turns && g.sinkTurn == f.sinkTurn
    && (PlacedBelow(f, k) ==> PlacedBelow(g, N_SHIPS))
    && (PlacedBelow(f, k) ==> forall i, j :: InBounds(i, j) && f.entry[i][j].status != Free ==>
          g.entry[i][j] == f.entry[i][j])
    && (PlacedBelow(f, k) ==> forall s, i, j :: k <= s < N_SHIPS && InBounds(i, j) ==>
          (g.entry[i][j].ship == Ship(s) <==> Covers(anchors[s - k], s, i, j)))
    && (forall i, j :: InBounds(i, j) ==> g.entry[i][j] == f.entry[i][j] || Newer(g.entry[i][j], k))
  }

  /** Ship k claiming its anchor, followed by a load of the ships after it, is a load from ship k. */
  lemma FleetCons(f: Field, f1: Field, a: Anchor, k: ShipId, g: Field, anchors: seq<Anchor>)
    requires Shaped(f) && FreeIsEmpty(f) && Shaped(f1) && Claims(f, f1, a, k) && InRange(a, k)
    requires FleetPost(f1, k + 1, g, anchors)
    ensures FleetPost(f, k, g, [a] + anchors)
  {
    PlaceFleetStep(f, f1, a, k);
    FleetStepLayout(f, f1, a, k, g, anchors);
  }

  /** One successful placement keeps FREE tiles ship-free and advances the placed-ships bound. */
  lemma PlaceFleetStep(f: Field, f1: Field, a: Anchor, k: ShipId)
    requires Shaped(f) && Shaped(f1) && FreeIsEmpty(f) && Claims(f, f1, a, k)
    ensures FreeIsEmpty(f1)
    ensures PlacedBelow(f, k) ==> PlacedBelow(f1, k + 1)
  {
  }

  /** Composing ship k's placement with the placement of the ships after it. */
  lemma FleetStepLayout(f: Field, f1: Field, a: Anchor, k: ShipId, g: Field, anchors: seq<Anchor>)
    requires Shaped(f) && Shaped(f1) && Shaped(g) && Claims(f, f1, a, k)
    requires |anchors| == N_SHIPS - (k + 1)
    requires PlacedBelow(f, k) ==> PlacedBelow(f1, k + 1)
    requires PlacedBelow(f1, k + 1) ==> forall i, j :: InBounds(i, j) && f1.entry[i][j].status != Free ==>
              g.entry[i][j] == f1.entry[i][j]
    requires PlacedBelow(f1, k + 1) ==> forall s, i, j :: k + 1 <= s < N_SHIPS && InBounds(i, j) ==>
              (g.entry[i][j].ship == Ship(s) <==> Covers(anchors[s - (k + 1)], s, i, j))
    requires forall i, j :: InBounds(i, j) ==> g.entry[i][j] == f1.entry[i][j] || Newer(g.entry[i][j], k + 1)
    ensures PlacedBelow(f, k) ==> forall i, j :: InBounds(i, j) && f.entry[i][j].status != Free ==>
              g.entry[i][j] == f.entry[i][j]
    ensures PlacedBelow(f, k) ==> forall s, i, j :: k <= s < N_SHIPS && InBounds(i, j) ==>
              (g.entry[i][j].ship == Ship(s) <==> Covers(([a] + anchors)[s - k], s, i, j))
    ensures forall i, j :: InBounds(i, j) ==> g.entry[i][j] == f.entry[i][j] || Newer(g.entry[i][j], k)
  {
    if PlacedBelow(f, k) {
      forall s, i, j | k <= s < N_SHIPS && InBounds(i, j)
        ensures g.entry[i][j].ship == Ship(s) <==> Covers(([a] + anchors)[s - k], s, i, j)
      {
        if s == k {
          if Covers(a, k, i, j) {
            assert g.entry[i][j] == f1.entry[i][j];
          } else {
            assert f1.entry[i][j] == f.entry[i][j];
          }
        } else {
          assert ([a] + anchors)[s - k] == anchors[s - (k + 1)];
        }
      }
    }
  }

  /** Rows k and below (in y) are FREE. */
  ghost predicate RowsFreeFrom(f: Field, k: int)
    requires Shaped(f)
  {
    forall i, j :: InBounds(i, j) && k <= j ==> f.entry[i][j].status == Free
  }

  /** The draws 0, k, 1 anchor ship k at the left end of row k, pointing RIGHT. */
  lemma RowDraw(k: ShipId)
    ensures Draw(k, 0, k, 1) == Anchor(Right, 0, k)
  {
    if k == 0 {
    } else if k == 1 {
    } else if k == 2 {
    } else if k == 3 {
    } else {
    }
  }

  /** Ship k fits along row k from the left edge when that row is FREE. */
  lemma RowFits(f: Field, k: ShipId)
    requires Shaped(f) && RowsFreeFrom(f, k)
    ensures Fits(f, Anchor(Right, 0, k), k)
  {
    forall t | 0 <= t < Length(k)
      ensures Holds(f, Along(Right, 0, k, t).0, Along(Right, 0, k, t).1, Free)
    {
      assert InBounds(t, k);
    }
    ExtentCoversRun(f, Right, 0, k, Free, Length(k));
  }

  /** Ship k fits along row k from the left edge when that row is FREE, and the rows after it stay FREE. */
  lemma RowLands(f: Field, k: ShipId)
    requires Shaped(f) && FreeIsEmpty(f) && RowsFreeFrom(f, k)
    ensures var p := PlaceShip(f, Right, 0, k, k);
            && p.ok
            && FreeIsEmpty(p.field)
            && RowsFreeFrom(p.field, k + 1)
  {
    RowFits(f, k);
    PlaceKeepsFreeEmpty(f, Right, 0, k, k);
  }

  /** The draws 0, k, 1 put ship k along row k from the left edge, and the loop lands there at once. */
  lemma RowRetryLands(f: Field, k: ShipId, rolls: seq<nat>)
    requires Shaped(f) && FreeIsEmpty(f) && RowsFreeFrom(f, k)
    requires |rolls| >= 3 && rolls[0] == 0 && rolls[1] == k && rolls[2] == 1
    ensures PlaceRetrying(f, k, rolls) == Landed(PlaceShip(f, Right, 0, k, k).field, Anchor(Right, 0, k), rolls[3..])
  {
    RowDraw(k);
    assert NthDraw(k, rolls, 0) == Draw(k, 0, k, 1);
    RowFits(f, k);
    RetryStep(f, k, rolls);
  }

  /** Loading goes on after a ship lands: the fleet loads when the ships after it load from the rolls left. */
  lemma LandedThenLoaded(f: Field, k: ShipId, rolls: seq<nat>)
    requires Shaped(f) && FreeIsEmpty(f)
    requires var r := PlaceRetrying(f, k, rolls);
             && r.Landed?
             && FreeIsEmpty(r.field)
             && PlaceFleet(r.field, k + 1, r.rest).Loaded?
    ensures PlaceFleet(f, k, rolls).Loaded?
  {
  }

  /** Draws that put ships k, k+1, ... along rows k, k+1, ... from the left edge. */
  predicate RowByRowDraws(rolls: seq<nat>, k: nat)
  {
    && k <= N_SHIPS
    && |rolls| == 3 * (N_SHIPS - k)
    && forall n :: 0 <= n < N_SHIPS - k ==> rolls[3 * n] == 0 && rolls[3 * n + 1] == k + n && rolls[3 * n + 2] == 1
  }

  /** After ship k's three draws the rest put ships k+1, ... along their rows. */
  lemma RowByRowDrawsShift(rolls: seq<nat>, k: nat)
    requires RowByRowDraws(rolls, k) && k < N_SHIPS
    ensures rolls[0] == 0 && rolls[1] == k && rolls[2] == 1
    ensures RowByRowDraws(rolls[3..], k + 1)
  {
    assert rolls[3 * 0] == 0 && rolls[3 * 0 + 1] == k + 0 && rolls[3 * 0 + 2] == 1;
    var rest := rolls[3..];
    forall n | 0 <= n < N_SHIPS - (k + 1)
      ensures rest[3 * n] == 0 && rest[3 * n + 1] == k + 1 + n && rest[3 * n + 2] == 1
    {
      assert rest[3 * n] == rolls[3 * (n + 1)];
      assert rest[3 * n + 1] == rolls[3 * (n + 1) + 1];
      assert rest[3 * n + 2] == rolls[3 * (n + 1) + 2];
    }
  }

  /**
    Row-by-row draws load the remaining fleet when the rows of the remaining
    ships are still FREE.
  */
  lemma {:induction false} RowByRowLoads(f: Field, k: nat, rolls: seq<nat>)
    requires Shaped(f) && FreeIsEmpty(f) && RowsFreeFrom(f, k) && RowByRowDraws(rolls, k)
    ensures PlaceFleet(f, k, rolls).Loaded?
    decreases N_SHIPS - k
  {
    if k < N_SHIPS {
      RowByRowDrawsShift(rolls, k);
      RowRetryLands(f, k, rolls);
      RowLands(f, k);
      RowByRowLoads(PlaceShip(f, Right, 0, k, k).field, k + 1, rolls[3..]);
      LandedThenLoaded(f, k, rolls);
    }
  }

  /** Some draws load the whole fleet onto a cleared field: ship s along row s from the left edge. */
  lemma FleetCanLoad()
    ensures CreateRandom(Clear(), [0, 0, 1, 0, 1, 1, 0, 2, 1, 0, 3, 1, 0, 4, 1]).Loaded?
  {
    var rolls: seq<nat> := [0, 0, 1, 0, 1, 1, 0, 2, 1, 0, 3, 1, 0, 4, 1];
    RowByRowLoads(Clear(), 0, rolls);
  }

  /** Every tile becomes UNTRIED; ships stay where they are. */
  function Ready(g: seq<seq<Entry>>): (r: seq<seq<Entry>>)
    ensures |r| == |g| && forall i :: 0 <= i < |g| ==> |r[i]| == |g[i]|
    ensures forall i, j :: 0 <= i < |g| && 0 <= j < |g[i]| ==> r[i][j] == Entry(Untried, g[i][j].ship)
  {
    seq(|g|, i requires 0 <= i < |g| => seq(|g[i]|, j requires 0 <= j < |g[i]| => Entry(Untried, g[i][j].ship)))
  }

  /**
    Loads the five ships at random anchors, carrier first, then readies the
    field. On a cleared field the result holds each ship exactly on the tiles
    its anchor covers, so ships never overlap and all lie on the field.
  */
  function CreateRandom(f: Field, rolls: seq<nat>): (r: Fleet)
    requires Shaped(f) && FreeIsEmpty(f)
    ensures r.Loaded? ==> Shaped(r.field) && |r.anchors| == N_SHIPS
    ensures r.Loaded? ==> forall i, j :: InBounds(i, j) ==> r.field.entry[i][j].status == Untried
    ensures r.Loaded? ==> forall s :: 0 <= s < N_SHIPS ==> r.field.health[s] == Length(s)
    ensures r.Loaded? ==> forall s :: 0 <= s < N_SHIPS ==> InRange(r.anchors[s], s)
    ensures r.Loaded? ==> r.field.turns == f.turns && r.field.sinkTurn == f.sinkTurn
    ensures r.Loaded? && Blank(f) ==> forall s, i, j :: 0 <= s < N_SHIPS && InBounds(i, j) ==>
              (r.field.entry[i][j].ship == Ship(s) <==> Covers(r.anchors[s], s, i, j))
  {
    match PlaceFleet(f, 0, rolls)
    case OutOfDraws => OutOfDraws
    case Loaded(g, anchors) =>
      assert Blank(f) ==> PlacedBelow(f, 0);
      Loaded(g.(entry := Ready(g.entry)), anchors)
  }
}
