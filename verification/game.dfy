/**
  One simulated game: a cleared field loaded with a random fleet, then AI
  turns until the field is won. The loaded field satisfies the play
  invariant, the AI never fails on an unwon field, and every game ends after
  between FleetLength() and TURN_MAX turns with every ship sunk.
*/
module Game {
  import opened Board
  import GridCount
  import Placement
  import Combat
  import Targeting

  /** What loading a fleet guarantees of the field and its anchors, for a field that had no turns and no sinkings. */
  ghost predicate Loaded(f: Field, anchors: seq<Placement.Anchor>)
  {
    && Shaped(f)
    && |anchors| == N_SHIPS
    && (forall i, j :: InBounds(i, j) ==> f.entry[i][j].status == Untried)
    && (forall s :: 0 <= s < N_SHIPS ==> f.health[s] == Length(s) && Placement.InRange(anchors[s], s))
    && (forall s, i, j :: 0 <= s < N_SHIPS && InBounds(i, j) ==>
          (f.entry[i][j].ship == Ship(s) <==> Placement.Covers(anchors[s], s, i, j)))
    && f.turns == 0
    && (forall s :: 0 <= s < N_SHIPS ==> f.sinkTurn[s] == TURN_INVALID)
  }

  /** On a loaded field each ship lies on Length(s) tiles, all untried, and its health counts them. */
  lemma LoadedHealthIsCount(f: Field, anchors: seq<Placement.Anchor>, s: ShipId)
    requires Loaded(f, anchors)
    ensures GridCount.Count(f.entry, Combat.ShipOf(s)) == Length(s)
    ensures f.health[s] == GridCount.Count(f.entry, Combat.UntriedOf(s))
  {
    var a := anchors[s];
    Placement.InRangeFits(a, s);
    forall i, j | 0 <= i < FIELD_SIZE && 0 <= j < FIELD_SIZE
      ensures Combat.UntriedOf(s)(f.entry[i][j]) <==>
              if a.view == Right then j == a.y && a.x <= i < a.x + Length(s)
              else i == a.x && a.y <= j < a.y + Length(s)
    {
      assert InBounds(i, j);
    }
    GridCount.CountRun(f.entry, Combat.UntriedOf(s), FIELD_SIZE, FIELD_SIZE, a.x, a.y, Length(s), a.view == Right);
    GridCount.CountAgree(f.entry, Combat.ShipOf(s), f.entry, Combat.UntriedOf(s));
  }

  /** A loaded field has no tried tile. */
  lemma LoadedNoneTried(f: Field, anchors: seq<Placement.Anchor>)
    requires Loaded(f, anchors)
    ensures GridCount.Count(f.entry, Combat.Tried()) == 0
  {
    forall i, j | 0 <= i < |f.entry| && 0 <= j < |f.entry[i]|
      ensures !Combat.Tried()(f.entry[i][j])
    {
      assert InBounds(i, j);
    }
    GridCount.CountZero(f.entry, Combat.Tried());
  }

  /** Loading a fleet onto a cleared field yields a field that satisfies the play invariant, with nothing yet hit. */
  lemma LoadedIsConsistent(rolls: seq<nat>)
    ensures var r := Placement.CreateRandom(Clear(), rolls);
            r.Loaded? ==>
              && Combat.Consistent(r.field)
              && r.field.turns == 0
              && Combat.FleetHealth(r.field) == FleetLength()
  {
    var r := Placement.CreateRandom(Clear(), rolls);
    if r.Loaded? {
      assert Loaded(r.field, r.anchors);
      LoadedFieldIsConsistent(r.field, r.anchors);
    }
  }

  /** A field in the loaded state satisfies the play invariant, with the whole fleet's health left. */
  lemma LoadedFieldIsConsistent(f: Field, anchors: seq<Placement.Anchor>)
    requires Loaded(f, anchors)
    ensures Combat.Consistent(f)
    ensures Combat.FleetHealth(f) == FleetLength()
  {
    forall s: ShipId | 0 <= s < N_SHIPS
      ensures GridCount.Count(f.entry, Combat.ShipOf(s)) == Length(s)
      ensures f.health[s] == GridCount.Count(f.entry, Combat.UntriedOf(s))
    {
      LoadedHealthIsCount(f, anchors, s);
    }
    LoadedNoneTried(f, anchors);
    assert forall i, j :: InBounds(i, j) ==> Combat.Sound(f.entry[i][j]) && Combat.AgreesWithHealth(f, f.entry[i][j]);
    assert forall s :: 0 <= s < N_SHIPS ==> Combat.SinkTurnAgrees(f, s);
  }

  /** No tile of a loaded field is claimed by two ships. */
  lemma FleetDoesNotOverlap(rolls: seq<nat>, s: ShipId, t: ShipId, i: int, j: int)
    requires s != t
    ensures var r := Placement.CreateRandom(Clear(), rolls);
            r.Loaded? ==> !(Placement.Covers(r.anchors[s], s, i, j) && Placement.Covers(r.anchors[t], t, i, j))
  {
    var r := Placement.CreateRandom(Clear(), rolls);
    if r.Loaded? && Placement.Covers(r.anchors[s], s, i, j) {
      Placement.InRangeFits(r.anchors[s], s);
      assert r.field.entry[i][j].ship == Ship(s);
    }
  }

  /**
    AI turns until the field is won. Each turn succeeds, costs the fleet at
    most one point of health and takes one turn, so the game ends within
    TURN_MAX turns and takes at least as many turns as health was left.
  */
  function PlayOut(f: Field): (g: Field)
    requires Combat.Consistent(f)
    ensures Combat.Consistent(g) && IsWon(g)
    ensures f.turns + Combat.FleetHealth(f) <= g.turns <= TURN_MAX
    decreases TURN_MAX - f.turns
  {
    Combat.ConsistentBounds(f);
    if IsWon(f) then f
    else
      Combat.UnwonHasUntried(f);
      var t := Targeting.PlayTurn(f);
      Combat.AttackKeepsConsistent(f, t.x, t.y);
      Combat.ConsistentBounds(t.field);
      Combat.AttackCostsAtMostOne(f, t.x, t.y);
      PlayOut(t.field)
  }

  /** On an unwon field in play the AI's turn never fails. */
  lemma TurnNeverFails(f: Field)
    requires Combat.Consistent(f) && !IsWon(f)
    ensures Targeting.PlayTurn(f).ok
  {
    Combat.UnwonHasUntried(f);
  }

  /**
    A whole game on a loaded field: play ends won after at least
    FleetLength() and at most TURN_MAX turns, with every ship sunk on a turn
    that was played.
  */
  lemma LoadedGameLength(f: Field, anchors: seq<Placement.Anchor>)
    requires Loaded(f, anchors)
    ensures Combat.Consistent(f)
    ensures var g := PlayOut(f);
            && IsWon(g)
            && FleetLength() <= g.turns <= TURN_MAX
            && forall s :: 0 <= s < N_SHIPS ==> 1 <= g.sinkTurn[s] <= g.turns
  {
    LoadedFieldIsConsistent(f, anchors);
    WonFieldAllSunk(PlayOut(f));
  }

  /** The same for a whole game from a cleared field, whenever the draws place the fleet. */
  lemma GameLength(rolls: seq<nat>)
    ensures var r := Placement.CreateRandom(Clear(), rolls);
            r.Loaded? ==>
              && Combat.Consistent(r.field)
              && var g := PlayOut(r.field);
              && IsWon(g)
              && FleetLength() <= g.turns <= TURN_MAX
              && forall s :: 0 <= s < N_SHIPS ==> 1 <= g.sinkTurn[s] <= g.turns
  {
    var r := Placement.CreateRandom(Clear(), rolls);
    if r.Loaded? {
      assert Loaded(r.field, r.anchors);
      LoadedGameLength(r.field, r.anchors);
    }
  }

  /** On a won field in play every ship sank on a turn that was played. */
  lemma WonFieldAllSunk(g: Field)
    requires Combat.Consistent(g) && IsWon(g)
    ensures forall s :: 0 <= s < N_SHIPS ==> 1 <= g.sinkTurn[s] <= g.turns
  {
    forall s | 0 <= s < N_SHIPS
      ensures 1 <= g.sinkTurn[s] <= g.turns
    {
      assert Combat.SinkTurnAgrees(g, s);
    }
  }
}
