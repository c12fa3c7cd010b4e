/**
  The targeting AI: bounds on the shortest ship (or ship fragment) still to be
  found, a score for every untried tile from the open runs and adjacent hits
  around it, and one turn that attacks the first tile of highest score.
*/
module Targeting {
  import opened Board
  import Combat

  /** Largest value of the source's `int`; the "no such ship" value of both minima. */
  const INT_MAX: int := 0x7fff_ffff

  function Pow2(n: nat): (r: nat)
    ensures r >= 1
  {
    if n == 0 then 1 else 2 * Pow2(n - 1)
  }

  lemma {:induction false} Pow2Exceeds(n: nat)
    ensures n < Pow2(n)
  {
    if n > 0 {
      Pow2Exceeds(n - 1);
    }
  }

  lemma {:induction false} Pow2Monotone(a: nat, b: nat)
    requires a <= b
    ensures Pow2(a) <= Pow2(b)
    decreases b
  {
    if a < b {
      Pow2Monotone(a, b - 1);
    }
  }

  /** The integer part of log2(n), for the positive arguments the source passes. */
  function FloorLog2(n: int): (r: nat)
    requires n >= 1
    ensures Pow2(r) <= n < 2 * Pow2(r)
  {
    if n == 1 then 0 else 1 + FloorLog2(n / 2)
  }

  /** Only one exponent brackets n, so FloorLog2 is exactly floor(log2(n)). */
  lemma {:induction false} FloorLog2Unique(n: int, k: nat)
    requires n >= 1 && Pow2(k) <= n < 2 * Pow2(k)
    ensures FloorLog2(n) == k
  {
    if k > 0 {
      FloorLog2Unique(n / 2, k - 1);
    }
  }

  /**
    The fragment bound of a damaged ship: the integer part of log2 of
    length - health (the hits it has taken), raised to 1 when that is 0.
  */
  function FragmentBound(length: int, health: int): (r: nat)
    requires 0 < health < length
    ensures 1 <= r <= length - health
    ensures var hits := length - health;
            Pow2(r) <= (if hits < 2 then 2 else hits) < 2 * Pow2(r)
  {
    var fragmentMin := FloorLog2(length - health);
    Pow2Exceeds(fragmentMin);
    if fragmentMin == 0 then 1 else fragmentMin
  }

  /**
    The bound for ships of the standard lengths. A carrier with one hit gets 1,
    not the 2 the worked example beside the source formula suggests, because
    the formula takes log2 of the hits rather than of the health.
  */
  lemma FragmentBoundValues()
    ensures FragmentBound(5, 3) == 1
    ensures FragmentBound(5, 4) == 1
    ensures FragmentBound(5, 1) == 2
    ensures FragmentBound(2, 1) == 1
  {
    assert FloorLog2(4) == 2;
  }

  /** A damaged ship of a standard length never has a fragment bound above 2. */
  lemma FragmentBoundAtMostTwo(length: int, health: int)
    requires 0 < health < length <= 5
    ensures FragmentBound(length, health) <= 2
  {
    var r := FragmentBound(length, health);
    if r > 2 {
      Pow2Monotone(3, r);
      assert false;
    }
  }

  /** The two minima: over untouched ships, and over damaged-ship fragments and untouched ships. */
  datatype Minima = Minima(full: int, partial: int)

  predicate Afloat(f: Field, s: ShipId)
    requires Shaped(f)
  {
    f.health[s] > 0
  }

  /** Afloat and never hit (health not below length). */
  predicate Untouched(f: Field, s: ShipId)
    requires Shaped(f)
  {
    Afloat(f, s) && f.health[s] >= Length(s)
  }

  /** What an afloat ship contributes to the partial minimum. */
  function Candidate(f: Field, s: ShipId): (c: int)
    requires Shaped(f) && Afloat(f, s)
  {
    if f.health[s] < Length(s) then FragmentBound(Length(s), f.health[s]) else Length(s)
  }

  /** The source's loop over ships k, k+1, ..., carrying the minima found so far. */
  function MinimaFrom(f: Field, k: nat, full: int, partial: int): (m: Minima)
    requires Shaped(f) && k <= N_SHIPS
    ensures m.full <= full && m.partial <= partial
    decreases N_SHIPS - k
  {
    if k == N_SHIPS then Minima(full, partial)
    else
      var health := f.health[k];
      var length := Length(k);
      if health > 0 then
        if health < length then
          var fragmentMin := FragmentBound(length, health);
          MinimaFrom(f, k + 1, full, if fragmentMin < partial then fragmentMin else partial)
        else if length < full then
          MinimaFrom(f, k + 1, length, if length < partial then length else partial)
        else
          MinimaFrom(f, k + 1, full, partial)
      else
        MinimaFrom(f, k + 1, full, partial)
  }

  /** `v` is no more than the length of any untouched ship from k on. */
  ghost predicate FullBelow(f: Field, k: nat, v: int)
    requires Shaped(f)
  {
    forall s :: k <= s < N_SHIPS && Untouched(f, s) ==> v <= Length(s)
  }

  /** `v` is no more than the candidate of any afloat ship from k on. */
  ghost predicate PartialBelow(f: Field, k: nat, v: int)
    requires Shaped(f)
  {
    forall s :: k <= s < N_SHIPS && Afloat(f, s) ==> v <= Candidate(f, s)
  }

  /**
    The loop keeps partial <= full, lowers full to the shortest untouched ship
    it passes and partial to the least candidate it passes, and each result is
    either the starting value or attained by some ship.
  */
  lemma {:induction false} MinimaFromSpec(f: Field, k: nat, full: int, partial: int)
    requires Shaped(f) && k <= N_SHIPS && partial <= full
    ensures var m := MinimaFrom(f, k, full, partial);
            && m.partial <= m.full
            && FullBelow(f, k, m.full)
            && (m.full == full || exists s :: k <= s < N_SHIPS && Untouched(f, s) && m.full == Length(s))
            && PartialBelow(f, k, m.partial)
            && (m.partial == partial || exists s :: k <= s < N_SHIPS && Afloat(f, s) && m.partial == Candidate(f, s))
  {
    MinimaFromFull(f, k, full, partial);
    MinimaFromPartial(f, k, full, partial);
  }

  /** The full half of MinimaFromSpec, with the order of the two minima. */
  lemma {:induction false} MinimaFromFull(f: Field, k: nat, full: int, partial: int)
    requires Shaped(f) && k <= N_SHIPS && partial <= full
    ensures var m := MinimaFrom(f, k, full, partial);
            && m.partial <= m.full
            && FullBelow(f, k, m.full)
            && (m.full == full || exists s :: k <= s < N_SHIPS && Untouched(f, s) && m.full == Length(s))
    decreases N_SHIPS - k
  {
    if k < N_SHIPS {
      var health := f.health[k];
      var length := Length(k);
      var full', partial' := full, partial;
      if health > 0 {
        if health < length {
          var fragmentMin := FragmentBound(length, health);
          partial' := if fragmentMin < partial then fragmentMin else partial;
        } else if length < full {
          full' := length;
          partial' := if length < partial then length else partial;
        }
      }
      assert MinimaFrom(f, k, full, partial) == MinimaFrom(f, k + 1, full', partial');
      MinimaFromFull(f, k + 1, full', partial');
    }
  }

  /** The partial half of MinimaFromSpec. */
  lemma {:induction false} MinimaFromPartial(f: Field, k: nat, full: int, partial: int)
    requires Shaped(f) && k <= N_SHIPS && partial <= full
    ensures var m := MinimaFrom(f, k, full, partial);
            && PartialBelow(f, k, m.partial)
            && (m.partial == partial || exists s :: k <= s < N_SHIPS && Afloat(f, s) && m.partial == Candidate(f, s))
    decreases N_SHIPS - k
  {
    if k < N_SHIPS {
      var health := f.health[k];
      var length := Length(k);
      var full', partial' := full, partial;
      if health > 0 {
        if health < length {
          var fragmentMin := FragmentBound(length, health);
          assert Candidate(f, k) == fragmentMin;
          partial' := if fragmentMin < partial then fragmentMin else partial;
        } else if length < full {
          assert Candidate(f, k) == length;
          full' := length;
          partial' := if length < partial then length else partial;
        }
      }
      assert MinimaFrom(f, k, full, partial) == MinimaFrom(f, k + 1, full', partial');
      MinimaFromPartial(f, k + 1, full', partial');
    }
  }

  /**
    `full` is the shortest untouched afloat ship, `partial` the least of the
    fragment bounds of damaged ships and the lengths of untouched ones; sunk
    ships take no part, and either is INT_MAX when it ranges over no ship.
  */
  function MinimumLength(f: Field): (m: Minima)
    requires Shaped(f)
    ensures m.partial <= m.full
    ensures forall s :: 0 <= s < N_SHIPS && Untouched(f, s) ==> m.full <= Length(s)
    ensures (exists s :: 0 <= s < N_SHIPS && Untouched(f, s) && m.full == Length(s)) ||
            (m.full == INT_MAX && forall s :: 0 <= s < N_SHIPS ==> !Untouched(f, s))
    ensures forall s :: 0 <= s < N_SHIPS && Afloat(f, s) ==> m.partial <= Candidate(f, s)
    ensures (exists s :: 0 <= s < N_SHIPS && Afloat(f, s) && m.partial == Candidate(f, s)) ||
            (m.partial == INT_MAX && forall s :: 0 <= s < N_SHIPS ==> !Afloat(f, s))
  {
    MinimaFromSpec(f, 0, INT_MAX, INT_MAX);
    MinimaFrom(f, 0, INT_MAX, INT_MAX)
  }

  /** The eight extents the AI reads around a tile: open runs through it and hit runs beside it. */
  datatype Sight = Sight(viewLeft: nat, viewRight: nat, viewUp: nat, viewDown: nat,
                         nearLeft: nat, nearRight: nat, nearUp: nat, nearDown: nat)

  /** The UNTRIED runs from (x, y) and the HIT runs starting one tile away, in all four directions. */
  function Look(f: Field, x: int, y: int): (s: Sight)
    requires Shaped(f) && Holds(f, x, y, Untried)
    ensures Plausible(s)
    ensures s.nearLeft >= 1 <==> Holds(f, x - 1, y, Hit)
    ensures s.nearRight >= 1 <==> Holds(f, x + 1, y, Hit)
    ensures s.nearUp >= 1 <==> Holds(f, x, y - 1, Hit)
    ensures s.nearDown >= 1 <==> Holds(f, x, y + 1, Hit)
  {
    Sight(Extent(f, Left, x, y, Untried), Extent(f, Right, x, y, Untried),
          Extent(f, Up, x, y, Untried), Extent(f, Down, x, y, Untried),
          Extent(f, Left, x - 1, y, Hit), Extent(f, Right, x + 1, y, Hit),
          Extent(f, Up, x, y - 1, Hit), Extent(f, Down, x, y + 1, Hit))
  }

  /**
    The source's blocked test for one axis: the open run is no longer than the
    relevant minimum less the adjacent hits. The partial minimum applies when
    the axis touches a hit, the full minimum otherwise. It is a heuristic:
    once no untouched ship is left the full minimum is INT_MAX, and every axis
    without an adjacent hit counts as blocked.
  */
  predicate Blocked(view: int, nearA: int, nearB: int, m: Minima)
  {
    if nearA > 0 || nearB > 0 then view <= m.partial - (nearA + nearB)
    else view <= m.full - (nearA + nearB)
  }

  /** Both axes through the tile fail the blocked test. */
  predicate Hopeless(s: Sight, m: Minima)
  {
    && Blocked(s.viewRight + s.viewLeft, s.nearLeft, s.nearRight, m)
    && Blocked(s.viewUp + s.viewDown, s.nearUp, s.nearDown, m)
  }

  /** Length of the hit runs beside the tile, all four directions together. */
  function NearHits(s: Sight): (n: nat)
  {
    s.nearLeft + s.nearRight + s.nearUp + s.nearDown
  }

  /** Two open-run lengths that share a tile span at most FIELD_SIZE + 1 tiles; their product is at most 30. */
  lemma OpenRunProduct(a: nat, b: nat)
    requires a >= 1 && b >= 1 && a + b <= FIELD_SIZE + 1
    ensures 1 <= a * b <= 30
  {
    assert a * b >= a * 1;
    assert 4 * (a * b) == (a + b) * (a + b) - (a - b) * (a - b);
    assert (a + b) * (a + b) <= 121;
  }

  /**
    The open runs through a tile are at least the tile itself and fit on the
    field together; the hit runs on either side of it fit beside the tile.
  */
  predicate Plausible(s: Sight)
  {
    && s.viewLeft >= 1 && s.viewRight >= 1 && s.viewUp >= 1 && s.viewDown >= 1
    && s.viewLeft + s.viewRight <= FIELD_SIZE + 1 && s.viewUp + s.viewDown <= FIELD_SIZE + 1
    && s.nearLeft + s.nearRight <= FIELD_SIZE - 1 && s.nearUp + s.nearDown <= FIELD_SIZE - 1
  }

  /** Largest score a tile can get: both open-run products at 30 and 2 * (FIELD_SIZE - 1) adjacent hits. */
  const SCORE_MAX: int := 60 + 2 * (FIELD_SIZE - 1) * (FIELD_SIZE * FIELD_SIZE)

  /**
    The score of what is seen around a tile: 0 when both axes fail the blocked
    test, otherwise the products of the opposite open runs plus FIELD_SIZE^2
    for every adjacent hit. The open-run part never reaches FIELD_SIZE^2, so
    any adjacent hit outweighs it.
  */
  function Rate(s: Sight, m: Minima): (p: int)
    requires Plausible(s)
    ensures 0 <= p <= SCORE_MAX
    ensures p == 0 <==> Hopeless(s, m)
    ensures NearHits(s) == 0 ==> p < FIELD_SIZE * FIELD_SIZE
    ensures NearHits(s) > 0 && p != 0 ==> p > FIELD_SIZE * FIELD_SIZE
  {
    var nearHorizontal := s.nearLeft + s.nearRight;
    var nearVertical := s.nearUp + s.nearDown;
    var blockedHorizontal := Blocked(s.viewRight + s.viewLeft, s.nearLeft, s.nearRight, m);
    var blockedVertical := Blocked(s.viewUp + s.viewDown, s.nearUp, s.nearDown, m);
    if !blockedHorizontal || !blockedVertical then
      OpenRunProduct(s.viewLeft, s.viewRight);
      OpenRunProduct(s.viewUp, s.viewDown);
      var open := s.viewLeft * s.viewRight + s.viewUp * s.viewDown;
      var near := nearHorizontal + nearVertical;
      assert near * (FIELD_SIZE * FIELD_SIZE) == 100 * near;
      open + near * (FIELD_SIZE * FIELD_SIZE)
    else 0
  }

  /** The score of an untried tile (x, y). */
  function Score(f: Field, m: Minima, x: int, y: int): (p: int)
    requires Shaped(f) && Holds(f, x, y, Untried)
    ensures 0 <= p <= SCORE_MAX
    ensures p == 0 <==> Hopeless(Look(f, x, y), m)
    ensures NearHits(Look(f, x, y)) == 0 ==> p < FIELD_SIZE * FIELD_SIZE
    ensures NearHits(Look(f, x, y)) > 0 && p != 0 ==> p > FIELD_SIZE * FIELD_SIZE
  {
    Rate(Look(f, x, y), m)
  }

  /**
    An open tile beside a hit scores more than any tile with no hit beside it,
    whatever the two tiles see otherwise.
  */
  lemma HitNeighbourWins(s: Sight, s': Sight, m: Minima)
    requires Plausible(s) && Plausible(s')
    requires NearHits(s) > 0 && !Hopeless(s, m)
    requires NearHits(s') == 0
    ensures Rate(s, m) > Rate(s', m)
  {
  }

  /** A ship afloat and damaged caps the partial minimum at 2. */
  lemma DamagedShipCapsPartial(f: Field, t: ShipId)
    requires Shaped(f) && 0 < f.health[t] < Length(t)
    ensures MinimumLength(f).partial <= 2
  {
    FragmentBoundAtMostTwo(Length(t), f.health[t]);
    assert Afloat(f, t) && Candidate(f, t) <= 2;
  }

  /**
    With the partial minimum at most 2, an axis with a hit beside the tile
    passes the blocked test: its open run is at least 2 and the hit run at least 1.
  */
  lemma NearHitOpensAxis(s: Sight, m: Minima)
    requires Plausible(s) && NearHits(s) > 0 && m.partial <= 2
    ensures !Hopeless(s, m)
  {
  }

  /**
    During play an untried tile beside a HIT is never ruled out: the hit ship
    is afloat and damaged, so the partial minimum is at most 2.
  */
  lemma AdjacentHitUnblocked(f: Field, x: int, y: int)
    requires Combat.Consistent(f) && Holds(f, x, y, Untried)
    requires NearHits(Look(f, x, y)) > 0
    ensures !Hopeless(Look(f, x, y), MinimumLength(f))
  {
    var s := Look(f, x, y);
    var h :=
      if s.nearLeft > 0 then (x - 1, y) else if s.nearRight > 0 then (x + 1, y)
      else if s.nearUp > 0 then (x, y - 1) else (x, y + 1);
    Combat.HitShipIsDamaged(f, h.0, h.1);
    DamagedShipCapsPartial(f, f.entry[h.0][h.1].ship.id);
    NearHitOpensAxis(s, MinimumLength(f));
  }

  /** Whenever tile (x, y) is untried, the turn succeeds on a tile scoring at least as much. */
  lemma TurnOutscores(f: Field, x: int, y: int)
    requires Shaped(f) && Holds(f, x, y, Untried)
    ensures var t := PlayTurn(f);
            var m := MinimumLength(f);
            && t.ok
            && Holds(f, t.x, t.y, Untried)
            && Score(f, m, x, y) <= Score(f, m, t.x, t.y)
  {
    var m := MinimumLength(f);
    var t := PlayTurn(f);
    assert AnyUntried(f) by {
      assert InBounds(x, y) && f.entry[x][y].status == Untried;
    }
    PlayTurnPicksFirstBest(f);
    assert Index(x, y) / FIELD_SIZE == x && Index(x, y) % FIELD_SIZE == y;
    assert Index(t.x, t.y) / FIELD_SIZE == t.x && Index(t.x, t.y) % FIELD_SIZE == t.y;
    assert TileScore(f, m, Index(x, y)) <= TileScore(f, m, Index(t.x, t.y));
  }

  /**
    The AI pursues a hit ship: while some untried tile lies beside a HIT, the
    turn succeeds and attacks a tile beside a HIT.
  */
  lemma TurnPursuesHit(f: Field, x: int, y: int)
    requires Combat.Consistent(f) && Holds(f, x, y, Untried)
    requires NearHits(Look(f, x, y)) > 0
    ensures var t := PlayTurn(f);
            && t.ok
            && Holds(f, t.x, t.y, Untried)
            && NearHits(Look(f, t.x, t.y)) > 0
  {
    var m := MinimumLength(f);
    var t := PlayTurn(f);
    AdjacentHitUnblocked(f, x, y);
    assert Score(f, m, x, y) > FIELD_SIZE * FIELD_SIZE;
    TurnOutscores(f, x, y);
    assert Score(f, m, t.x, t.y) > FIELD_SIZE * FIELD_SIZE;
  }

  /**
    With no untouched ship left the full minimum is INT_MAX, so a tile with no
    hit beside it scores 0 whatever its open runs, even when it belongs to a
    damaged ship still afloat.
  */
  lemma NoUntouchedShipZeroesOpenTiles(s: Sight, m: Minima)
    requires Plausible(s) && NearHits(s) == 0 && m.full == INT_MAX
    ensures Rate(s, m) == 0
  {
  }

  /** Position of tile (x, y) in the scan: x in the outer loop, y in the inner one. */
  function Index(x: int, y: int): (k: int)
  {
    x * FIELD_SIZE + y
  }

  /** The score of the k-th tile of the scan, -1 for a tile already tried. */
  function TileScore(f: Field, m: Minima, k: int): (p: int)
    requires Shaped(f) && 0 <= k < TURN_MAX
    ensures p >= -1
    ensures p >= 0 <==> Holds(f, k / FIELD_SIZE, k % FIELD_SIZE, Untried)
  {
    var x, y := k / FIELD_SIZE, k % FIELD_SIZE;
    if Holds(f, x, y, Untried) then Score(f, m, x, y) else -1
  }

  /** The scores of all tiles in scan order. */
  function Scores(f: Field, m: Minima): (r: seq<int>)
    requires Shaped(f)
    ensures |r| == TURN_MAX
    ensures forall k :: 0 <= k < TURN_MAX ==> r[k] == TileScore(f, m, k)
  {
    seq(TURN_MAX, k requires 0 <= k < TURN_MAX => TileScore(f, m, k))
  }

  /** The best score among the first n tiles of the scan and where it first occurs. */
  datatype Pick = Pick(best: int, x: int, y: int)

  /**
    The source's scan over the first n tiles, starting from -1 at (-1, -1) and
    replacing the pick only on a strictly greater score. A tried tile scores
    -1 and so never replaces a pick, which is how the source skips it.
  */
  function Best(scores: seq<int>, n: int): (p: Pick)
    requires 0 <= n <= |scores| == TURN_MAX
    requires forall k :: 0 <= k < TURN_MAX ==> scores[k] >= -1
    ensures forall k :: 0 <= k < n ==> scores[k] <= p.best
    ensures p.best == -1 ==> p.x == -1 && p.y == -1
    ensures p.best != -1 ==>
              && 0 <= Index(p.x, p.y) < n
              && InBounds(p.x, p.y)
              && scores[Index(p.x, p.y)] == p.best
              && forall k :: 0 <= k < Index(p.x, p.y) ==> scores[k] < p.best
    ensures p.best >= -1
  {
    if n == 0 then Pick(-1, -1, -1)
    else
      var p := Best(scores, n - 1);
      var k := n - 1;
      var probability := scores[k];
      ScanPosition(k);
      if probability > p.best then Pick(probability, k / FIELD_SIZE, k % FIELD_SIZE) else p
  }

  /** The k-th tile of the scan is on the field and sits at position k. */
  lemma ScanPosition(k: int)
    requires 0 <= k < TURN_MAX
    ensures InBounds(k / FIELD_SIZE, k % FIELD_SIZE)
    ensures Index(k / FIELD_SIZE, k % FIELD_SIZE) == k
  {
  }

  /** Outcome of one AI turn: success, the tile chosen, the attack's answer, the field afterwards. */
  datatype Turn = Turn(ok: bool, x: int, y: int, result: Status, field: Field)

  /** Some tile is still untried. */
  ghost predicate AnyUntried(f: Field)
    requires Shaped(f)
  {
    exists i, j :: InBounds(i, j) && f.entry[i][j].status == Untried
  }

  /**
    One AI turn: compute the minima, pick the first tile of highest score in
    the scan, attack it. The turn fails only when the attack answers ERROR,
    which happens exactly when no tile is left untried.
  */
  function PlayTurn(f: Field): (t: Turn)
    requires Shaped(f)
    ensures Shaped(t.field)
    ensures t.ok <==> AnyUntried(f)
    ensures !t.ok ==> t.field == f && t.result == Error
    ensures t.ok ==>
              && Holds(f, t.x, t.y, Untried)
              && t.result != Error
              && t.field.entry[t.x][t.y].status == t.result
              && t.field.entry[t.x][t.y].status != Untried
              && t.field == Combat.Attack(f, t.x, t.y).field
  {
    var p := Choose(f);
    var a := Combat.Attack(f, p.x, p.y);
    Turn(a.result != Error, p.x, p.y, a.result, a.field)
  }

  /** The tile the AI settles on: a pick exists exactly when some tile is untried, and it is untried. */
  function Choose(f: Field): (p: Pick)
    requires Shaped(f)
    ensures p.best != -1 <==> AnyUntried(f)
    ensures p.best != -1 ==> Holds(f, p.x, p.y, Untried)
    ensures p.best == -1 ==> !InBounds(p.x, p.y)
  {
    var m := MinimumLength(f);
    ScanFindsUntried(f, m);
    Best(Scores(f, m), TURN_MAX)
  }

  /**
    The tile a successful turn attacks has the highest score of all tiles, and
    every tile before it in the scan scores strictly less: ties go to the
    first tile in x-outer, y-inner order.
  */
  lemma PlayTurnPicksFirstBest(f: Field)
    requires Shaped(f)
    ensures var t := PlayTurn(f);
            var m := MinimumLength(f);
            t.ok ==>
              && (forall k :: 0 <= k < TURN_MAX ==> TileScore(f, m, k) <= TileScore(f, m, Index(t.x, t.y)))
              && (forall k :: 0 <= k < Index(t.x, t.y) ==> TileScore(f, m, k) < TileScore(f, m, Index(t.x, t.y)))
  {
    ScanFindsUntried(f, MinimumLength(f));
  }

  /** The scan picks a tile exactly when some tile is untried, and the tile it picks is untried. */
  lemma ScanFindsUntried(f: Field, m: Minima)
    requires Shaped(f)
    ensures var p := Best(Scores(f, m), TURN_MAX);
            && (p.best != -1 <==> AnyUntried(f))
            && (p.best != -1 ==> Holds(f, p.x, p.y, Untried))
  {
    var p := Best(Scores(f, m), TURN_MAX);
    if AnyUntried(f) {
      var i, j :| InBounds(i, j) && f.entry[i][j].status == Untried;
      assert Index(i, j) / FIELD_SIZE == i && Index(i, j) % FIELD_SIZE == j;
      assert TileScore(f, m, Index(i, j)) >= 0;
    }
    if p.best != -1 {
      assert Index(p.x, p.y) / FIELD_SIZE == p.x && Index(p.x, p.y) % FIELD_SIZE == p.y;
    }
  }
}
