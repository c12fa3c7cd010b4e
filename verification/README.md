# Battleship simulator core in Dafny

A model of the board state machine and the targeting AI of a single-player
Battleship simulator. The AI plays games against randomly loaded fleets on a
10×10 field holding five ships: carrier 5, battleship 4, submarine 3,
cruiser 3 and destroyer 2.

The model has six modules. Each is one file.

- `GridCount` (`grid_count.dfy`) counts the cells of a grid that satisfy a predicate. It also proves how a count reacts to a single-cell update, to a pointwise-equivalent grid, and to a straight run of cells.
- `Board` (`board.dfy`) holds the constants, the enumerations (`Status`, `Occupant`, `View`), the `Field` record indexed `entry[x][y]`, the direction vectors, the same-status run length `Extent`, `Clear` and `IsWon`.
- `Placement` (`placement.dfy`) places one ship along a run of FREE tiles (`PlaceShip`) and loads the whole fleet at random anchors (`CreateRandom`).
- `Combat` (`combat.dfy`) is the attack transition (`Attack`) and the play invariant `Consistent`:
  - every stored status is UNTRIED, MISS, HIT or SUNK and agrees with the tile's ship;
  - each ship lies on exactly its length in tiles, and its health is its number of untried tiles, so health is length less the ship's tried tiles;
  - the turn counter is the number of tried tiles;
  - sink turns are set exactly for ships with no health left.
- `Targeting` (`targeting.dfy`) is the AI:
  - the minimum remaining ship length (`full`) and fragment bound (`partial`);
  - a score per untried tile;
  - the first highest-scoring tile in x-outer, y-inner scan order;
  - one turn (`PlayTurn`).
- `Game` (`game.dfy`) is the driver loop: turns until the field is won. A loaded field satisfies the invariant, so the AI never fails, and every game ends after 17 to 100 turns.

The C library's `rand()` becomes an input. `rolls` lists the values that successive calls return. Every ship placement uses three of them: `x = r % anchor`, `y = r % anchor`, and RIGHT if the third value is odd, DOWN otherwise. Here `anchor = FIELD_SIZE - length + 1`.

The code and its comment disagree about the fragment bound of a damaged ship. The code (`src/ai.c:54`) takes `(int)log2(length-health)`, and `length - health` is the number of hits the ship has taken. The worked examples in the comment above it (`src/ai.c:41-53`) take log2 of the unhit remainder instead. They give 2 for a carrier hit once, where the code gives `max(1, log2(1)) = 1`. The model follows the code. `Targeting.FragmentBoundValues` records the code's values, including 1 for a carrier hit once.

## Model

| member | source | states |
|---|---|---|
| Board.Length | src/field.c:19-25 | every ship is 2 to 5 tiles long, shorter than the field, and the carrier is 5 |
| Board.FleetLength | src/field.c:19-25 | the five ships together occupy 17 tiles, the least number of hits a game needs |
| Board.ShipCode | src/field.h:37-44 | a tile's stored ship code lies in EMPTY..4 and is EMPTY exactly when no ship is there |
| Board.ShipCodeRoundTrip | src/field.h:37-44 | reading a stored ship code back yields the same occupant |
| Board.Vector | src/field.c:33-54 | each direction is a unit step along exactly one axis; LEFT and RIGHT move in x, and RIGHT and DOWN step +1 |
| Board.ReachIsDistanceToEdge | src/field.h:109-111 | from an in-bounds tile, the last tile counted towards the edge is on the field and the next one is not |
| Board.Extent | src/field.c:88-110 | the run length is 0 off the field, at most the distance to the edge (so at most FIELD_SIZE), and at least 1 exactly when the start tile has the status |
| Board.ExtentIsRun | src/field.c:101-109 | every tile among the first Extent tiles of the run has the status |
| Board.ExtentStops | src/field.c:104-109 | the tile just past the run is off the field or has another status, so the run is maximal |
| Board.ExtentCoversRun | src/field.c:102-109 | a run of n tiles with the status from the start tile makes the extent at least n |
| Board.Clear | src/field.c:66-83 | every tile is FREE without a ship, every health is -1, turns are 0 and every sink turn is TURN_INVALID |
| Board.AllDownFrom | src/field.c:242-247 | the loop finds no ship from index k on with positive health exactly when none has any |
| Board.IsWon | src/field.c:241-248 | the field is won exactly when no ship has positive health |
| Board.ClearedFieldIsWon | src/field.c:241-248 | a cleared field counts as won, because the -1 "not placed" healths are not positive |
| Placement.WriteShip | src/field.c:133-150 | the write succeeds exactly when no tile of the run holds a ship; on success exactly the run's tiles become UNTRIED with the ship and every other tile is kept |
| Placement.PlaceShip | src/field.c:120-155 | a FREE run shorter than the ship fails with nothing changed; when FREE tiles hold no ship, success happens exactly when the run is long enough, and success claims exactly the ship's tiles, all formerly FREE, and sets its health to its length |
| Placement.PlaceKeepsFreeEmpty | src/field.c:139-146 | a placement keeps FREE tiles ship-free, so the defensive check on a claimed tile never fires |
| Placement.Draw | src/field.c:169-179 | a drawn anchor lies in [0, FIELD_SIZE - length] on both axes and faces RIGHT or DOWN |
| Placement.InRangeFits | src/field.c:165-169 | a ship anchored in the drawn range lies entirely on the field |
| Placement.PlaceRetrying | src/field.c:171-180 | when a ship lands, it claims FREE tiles at an anchor in the drawn range |
| Placement.NthDrawShift | src/field.c:175-180 | after one round of the loop consumes three draws, every later anchor is drawn one round earlier |
| Placement.RetryStep | src/field.c:175-180 | one round of the loop lands on the drawn anchor when its FREE run fits the ship, and otherwise retries on the unchanged field |
| Placement.PlaceRetryingExhausted | src/field.c:175-180 | the loop runs out of draws exactly when no anchor it draws has a FREE run long enough for the ship |
| Placement.FirstFitShift | src/field.c:175-180 | a first fitting draw among the later draws, after a first draw that does not fit, is the first fitting draw overall |
| Placement.PlaceRetryingFirstFit | src/field.c:175-180 | when the loop lands, it lands on the first drawn anchor that fits, and the next ship gets the draws after it |
| Placement.PlaceFleet | src/field.c:161-181 | the ships are placed in order; each lies exactly on its anchor's tiles; earlier ships, turns and sink turns are kept; and each placed ship's health is its length |
| Placement.FleetCons | src/field.c:161-181 | placing ship k and then loading the ships after it amounts to loading from ship k |
| Placement.LandedThenLoaded | src/field.c:161-181 | once ship k lands, the fleet loads whenever the ships after it load from the remaining draws |
| Placement.RowDraw | src/field.c:169-179 | the draws 0, k, 1 anchor ship k at the left end of row k, pointing RIGHT |
| Placement.RowFits | src/field.c:102-109 | ship k fits along a FREE row k from the left edge |
| Placement.RowLands | src/field.c:120-155 | ship k placed along a FREE row k succeeds, and the later rows stay FREE |
| Placement.RowRetryLands | src/field.c:175-180 | with the draws 0, k, 1 the loop lands ship k at once along row k |
| Placement.RowByRowDrawsShift | src/field.c:175-180 | after ship k's three draws, the rest are row-by-row draws for the ships after it |
| Placement.RowByRowLoads | src/field.c:161-181 | row-by-row draws load every remaining ship while their rows are FREE |
| Placement.FleetCanLoad | src/field.c:160-189 | the draws 0,0,1, 0,1,1, 0,2,1, 0,3,1, 0,4,1 load the whole fleet onto a cleared field, so the loaded-field guarantees are not vacuous |
| Placement.Ready | src/field.c:183-188 | every tile becomes UNTRIED and keeps its ship |
| Placement.CreateRandom | src/field.c:160-189 | a loaded field has every tile UNTRIED and each health equal to its length; on a cleared field each ship occupies exactly the tiles of an in-range anchor |
| Combat.SinkSweep | src/field.c:217-223 | exactly the tiles of the sunk ship become SUNK |
| Combat.Attack | src/field.c:194-236 | an attack off the field or on a tried tile is ERROR and changes nothing; otherwise the result is MISS, HIT or SUNK, turns increase by one and the tile takes the returned status; MISS means no ship there; HIT and SUNK cost that ship one health; SUNK happens exactly when its health drops to 0 or below, marks all its tiles SUNK and records the sink turn; nothing else changes |
| Combat.ConsistentBounds | src/field.h:25-27 | under the play invariant, 0 <= turns <= TURN_MAX and no health is negative |
| Combat.AttackKeepsConsistent | src/field.c:204-235 | every attack, successful or not, preserves the play invariant, including each ship's tile count |
| Combat.AttackKeepsShipSizes | src/field.c:204-223 | an attack moves no ship, so each ship keeps its number of tiles |
| Combat.HealthIsLengthLessHits | src/field.h:81-82 | under the invariant a ship's health is its length less the number of its tiles already tried |
| Combat.HitShipIsDamaged | src/field.c:209-216 | under the invariant a HIT tile belongs to a ship that is afloat with health below its length |
| Combat.AttackRetiresOneTile | src/field.c:194-236 | statuses only move UNTRIED->MISS/HIT/SUNK or HIT->SUNK, and a successful attack removes exactly the attacked tile from the untried tiles |
| Combat.WonIffEveryShipTileSunk | src/field.c:241-248 | under the invariant, the field is won exactly when every ship tile is SUNK |
| Combat.UnwonHasUntried | src/ai.c:190-193 | under the invariant, an unwon field still has an untried tile to attack |
| Combat.AttackCostsAtMostOne | src/field.c:209-212 | an attack lowers the fleet's total health by at most one |
| Targeting.FloorLog2 | src/ai.c:54 | the result k satisfies 2^k <= n < 2^(k+1) |
| Targeting.FloorLog2Unique | src/ai.c:54 | only one exponent brackets n, so the result is exactly floor(log2 n) |
| Targeting.FragmentBound | src/ai.c:54-57 | the bound is max(1, floor(log2(length - health))), given as the unique r with 2^r <= max(2, length-health) < 2^(r+1); it is at least 1 and at most the hit count |
| Targeting.FragmentBoundAtMostTwo | src/ai.c:54-57 | a damaged ship of length at most 5 has a fragment bound of at most 2 |
| Targeting.FragmentBoundValues | src/ai.c:41-57 | for a carrier, 2 hits give 1 as the comment says, 1 hit gives 1 (the comment says 2), and 4 hits give 2 |
| Targeting.MinimaFrom | src/ai.c:30-71 | the loop never raises either minimum |
| Targeting.MinimaFromSpec | src/ai.c:30-74 | the loop keeps partial <= full; it lowers full to the shortest untouched ship and partial to the least candidate among afloat ships; each result is its start value or one attained by a ship |
| Targeting.MinimaFromFull | src/ai.c:63-73 | the full half: partial <= full, full is a lower bound on untouched lengths, and it is its start value or attained |
| Targeting.MinimaFromPartial | src/ai.c:54-69 | the partial half: partial is a lower bound on every afloat ship's candidate, and it is its start value or attained |
| Targeting.MinimumLength | src/ai.c:26-81 | full is the least length of an untouched afloat ship, or INT_MAX if there is none; partial is the least fragment bound or untouched length, or INT_MAX if no ship is afloat; sunk ships are ignored; partial <= full |
| Targeting.Look | src/ai.c:106-128 | around an untried tile the four open runs are at least 1 and opposite runs total at most FIELD_SIZE+1 tiles and opposite hit runs at most FIELD_SIZE-1; each hit run is positive exactly when the neighbour that way is HIT |
| Targeting.OpenRunProduct | src/ai.c:173-177 | two opposite open runs multiply to at most 30, so the open-run term never reaches FIELD_SIZE^2 |
| Targeting.Rate | src/ai.c:148-179 | the score lies in 0..SCORE_MAX (60 + 2*(FIELD_SIZE-1)*FIELD_SIZE^2); it is 0 exactly when both axes fail the blocked test; a non-zero score is above FIELD_SIZE^2 with an adjacent hit and below it without |
| Targeting.Score | src/ai.c:106-179 | the score of an untried tile lies in 0..SCORE_MAX; it is 0 exactly when both axes fail the blocked test; a non-zero score is above FIELD_SIZE^2 with an adjacent hit and below it without |
| Targeting.NoUntouchedShipZeroesOpenTiles | src/ai.c:151-161 | once no untouched ship is left (full is INT_MAX), a tile with no hit beside it scores 0, whatever its open runs |
| Targeting.HitNeighbourWins | src/ai.c:174-177 | whatever else two untried tiles see, an unblocked tile beside a hit outscores a tile with no hit beside it |
| Targeting.DamagedShipCapsPartial | src/ai.c:54-62 | a ship afloat and damaged caps the partial minimum at 2 |
| Targeting.NearHitOpensAxis | src/ai.c:148-161 | with partial at most 2, a tile with a hit beside it passes the blocked test on that axis |
| Targeting.AdjacentHitUnblocked | src/ai.c:148-161 | during play, an untried tile beside a HIT always passes the blocked test, so it is never scored 0 |
| Targeting.TileScore | src/ai.c:100-104 | a tile scores at least 0 exactly when it is on the field and UNTRIED, and -1 otherwise |
| Targeting.Best | src/ai.c:95-188 | the pick scores at least as much as every scanned tile; when it is not -1 it is an on-field tile earlier than the bound, and every tile before it in scan order scores strictly less; when it is -1 the pick is (-1, -1) |
| Targeting.ScanPosition | src/ai.c:98-99 | the k-th tile of the scan is (k / 10, k % 10), on the field, and Index maps it back to k |
| Targeting.ScanFindsUntried | src/ai.c:190-193 | the scan picks a tile exactly when some tile is untried, and the picked tile is untried |
| Targeting.Choose | src/ai.c:190-193 | a tile is chosen exactly when one is untried, and it is untried; without one the choice is off the field |
| Targeting.PlayTurn | src/ai.c:190-205 | the turn succeeds exactly when some tile is untried; a failed turn leaves the field as it was; a successful one attacks an untried tile, and afterwards that tile is no longer untried and its status equals the returned result |
| Targeting.PlayTurnPicksFirstBest | src/ai.c:181-186 | the attacked tile has the highest score of all tiles, and every tile before it in scan order scores strictly less |
| Targeting.TurnOutscores | src/ai.c:181-193 | whenever a tile is untried the turn succeeds, on a tile scoring at least as much as that one |
| Targeting.TurnPursuesHit | src/ai.c:174-176 | during play, while some untried tile lies beside a HIT, the turn attacks a tile beside a HIT: a hit ship is pursued |
| Game.LoadedHealthIsCount | src/field.c:160-189 | on a freshly loaded field each ship lies on exactly its length in tiles, and its health equals its number of untried tiles |
| Game.LoadedNoneTried | src/field.c:183-188 | a freshly loaded field has no tried tile |
| Game.LoadedFieldIsConsistent | src/field.c:160-189 | a freshly loaded field satisfies the play invariant with the whole fleet's 17 health left |
| Game.LoadedIsConsistent | src/main.c:121-123 | clearing and then loading a field gives a field that satisfies the play invariant, with 0 turns and 17 health |
| Game.FleetDoesNotOverlap | src/field.c:139-146 | no tile of a loaded field is covered by two ships' anchors |
| Game.PlayOut | src/main.c:129-139 | playing turns until the field is won keeps the invariant, ends won, and ends within TURN_MAX turns; it takes at least as many turns as health was left |
| Game.TurnNeverFails | src/main.c:129-133 | on an unwon field satisfying the invariant, the AI's turn never fails |
| Game.LoadedGameLength | src/main.c:129-139 | a game played on a freshly loaded field ends won, after at least 17 and at most 100 turns, with every ship's sink turn between 1 and the final turn |
| Game.GameLength | src/main.c:119-139 | a whole game on a loaded field ends won, after at least 17 and at most 100 turns, with every ship's sink turn between 1 and the final turn |
| Game.WonFieldAllSunk | src/main.c:142-149 | on a won field satisfying the invariant, every logged sink turn is a turn that was played |

## Left out

- Command-line parsing, log files, CSV output and `srand(time(NULL))` in `src/main.c` are input/output glue. Only the loop structure of `main` is modelled (`Game.PlayOut`).
- `field_Print`, called at `src/main.c:137`, is declared in no header of the modelled files and defined in neither `src/field.c` nor `src/field.h`. Its output format is unknown.
- `src/audrey.c`, `src/audrey.h`, `src/ship.c` and `src/ship.h` are an outdated second AI and its ship table. They use a field interface that does not exist in `src/field.h`. `src/ai.h` is a single prototype.
- The `eprintf` diagnostics and the `assert` macros of `src/debug.h` are left out. Each assert in `src/ai.c` is proved instead: `partial <= full`, view extents at least 1, a non-negative score, and an untried chosen tile.
- The random number generator is modelled as a finite list of draws. Running out of them yields `OutOfDraws`. The model therefore does not claim that the rejection loop at `src/field.c:175-180` always terminates, which the source assumes without proof. `Placement.PlaceRetryingExhausted` and `Placement.PlaceRetryingFirstFit` state what a finite list of draws gives instead.
- `log2` from the C maths library is modelled by the integer `Targeting.FloorLog2`. For the arguments that occur (1 to 4), the integer and floating-point results agree.
- 32-bit overflow is not modelled because nothing comes near it. Health lies in -1..5, sink turns in -1..TURN_MAX and turns in 0..TURN_MAX. Tile scores lie in 0..SCORE_MAX = 1860, which `Targeting.Rate` proves. On each axis the blocked test subtracts at most FIELD_SIZE-1 adjacent hits from a minimum between 1 and `INT_MAX`. The difference therefore stays between -8 and `INT_MAX`.
- The getters `field_GetStatus`, `field_GetShipHealth`, `field_GetTurnCount` and `field_GetSinkTurn` are the datatype selectors `entry[x][y].status`, `health[s]`, `turns` and `sinkTurn[s]`. `field_GetShipLength` is `Board.Length` and `field_IsInBounds` is `Board.InBounds`.
- `ai_PlayTurn` asserts that a tile was chosen before it attacks. With no untried tile left, the model follows a build without assertions: the attack on (-1, -1) answers ERROR and the turn fails. `Game.TurnNeverFails` shows this never happens while the game is unwon.
- Placement.PlaceShip: when a FREE tile of the run already holds a ship, the contract says only that the attempt fails and that health, turns and sink turns are kept. It leaves unstated which tiles the source had already written before its defensive check fired. `Placement.PlaceKeepsFreeEmpty` shows that this case never arises during loading.
- Targeting.MinimaFrom: its own contract gives only that the minima never rise. The full characterisation is the separate lemma `Targeting.MinimaFromSpec`.
