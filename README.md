# Galaxian game-state engine in Dafny

A model of the game logic of a JavaFX Galaxian clone. The model covers:

- **the game manager**: the formation rows, the list of diving enemies, the list of missiles, and the score, lives and fleets-destroyed counters;
- **the three kinds of entity**: enemies, missiles and the player.

These are objects whose fields change in place, so the model is imperative. `Sprites.Enemy`, `Sprites.Missile`, `Sprites.Player` and `Game.GameManager` are classes, and every operation is a method with `modifies` clauses. Each method's postcondition gives the new state through specification functions of the state, or of the lists, before the call. The frame method `Tick` and its helper `Advance` are the exceptions. They chain `Update`, the enemies' turn and the steering, so they state the invariant, the counters and, for `Tick`, the player's move. The specification functions are these:

- `Motion.Step` / `Motion.MarchRows` specify the movement pass;
- `Fleet.FleetColumns` / `Fleet.Candidates` specify fleet layout and dive candidates;
- `Hits.ScoreGain`, `Hits.MissileLosses`, `Hits.ContactLosses`, `Hits.FormationKills`, `Hits.MarkedAll`, `Hits.ContactMarked` and `Hits.SpentMissiles` specify the collision scan;
- `Lists.RemoveAll` specifies Java's `removeAll`;
- `Game.Rolled` / `Game.Firing` specify the random spawn and fire decisions.

Lemmas then state what the game promises in terms of those functions.

Modules, one per file:

- `Geometry` (geometry.dfy): screen and entity sizes, and the two collaborators the model takes as parameters. One is rectangle overlap (`Overlap`); the other is the square-root aim normalisation (`Aim`).
- `Lists` (lists.dfy): removal by identity, flattening of rows, and distinctness.
- `Fleet` (fleet.dfy): the per-row layout rules of a new fleet, slot positions, and dive candidates.
- `Motion` (motion.dfy): one `movePattern` call as a pure function of an enemy's fields and the shared direction, and the per-frame loop over the rows.
- `Sprites` (sprites.dfy): the `Enemy`, `Missile` and `Player` classes.
- `Hits` (hits.dfy): what a frame's collision scan finds.
- `Game` (game_manager.dfy): the `GameManager` class and one frame of the game loop.

The code's quirks are modelled as written:

- A diver stays in its formation row and keeps being moved by the row loop. It remains a dive candidate, so it can be appended to the divers twice.
- One player missile that hits a diver scores 10 + 20 (`Hits.DiverScoresTwice`).
- `createEnemyFleet` appends six rows and never clears the old, empty ones. `Valid` keeps `|enemies| == 6 * (fleetsDestroyed + 1)`.
- Replacements go to row 0 whatever their row tag.
- Lives may fall below zero; game over is a flag that does not stop the frame.
- The shared direction flips in the middle of the movement loop (`Motion.TurnAtRightEdge`).

Random draws come in as parameters:

- `draws: nat -> real` is the k-th `Math.random()` of a loop;
- `nextInt` must satisfy `nextInt(n) < n`.

The game loop's key state comes in as booleans.

## Model

| member | source | states |
|---|---|---|
| Sprites.Clamp | src/Player.java:49-57 | the clamped x lies in [0, 800 - 30]; it is the input when that is in range, 0 below and 770 above |
| Sprites.Enemy.constructor | src/Enemy.java:25-33 | a new enemy keeps the given colour, row and column, and is neither diving nor entering |
| Sprites.Enemy.ResetPosition | src/Enemy.java:195-204 | the enemy sits at slot x = 50 + 40·col, y = 70 + 40·row; flags and tags are untouched |
| Sprites.Enemy.SetSpawnPosition | src/Enemy.java:210-213 | x becomes the argument and y becomes 0; nothing else changes |
| Sprites.Enemy.StartMovingDown | src/Enemy.java:58-60 | only the entering flag is set; the target row is ignored |
| Sprites.Enemy.Dive | src/Enemy.java:165-167 | only the diving flag is set |
| Sprites.Enemy.MovePattern | src/Enemy.java:82-120 | the new fields and the new shared direction are exactly `Motion.Step` of the old fields |
| Sprites.Enemy.ShootTowardsPlayer | src/Enemy.java:126-152 | null iff the enemy is within 200 pixels of the bottom; otherwise a new missile shot by this enemy, centred on its bottom edge, with the aim vector and speed 0.2 |
| Sprites.Enemy.CollidesWith | src/Enemy.java:175-180 | never true for an enemy argument; for any other sprite it is the bounds overlap |
| Sprites.Missile.constructor | src/Missile.java:22-28 | the missile is centred on startX with its bottom edge at startY, has speed 0.05 and no direction, and keeps its shooter |
| Sprites.Missile.Move | src/Missile.java:36-39 | x and y change by exactly the increments |
| Sprites.Missile.SetSpeed | src/Missile.java:77-79 | the speed read back is the one set |
| Sprites.Missile.SetDirection | src/Missile.java:86-89 | the direction read back is the one set |
| Sprites.Missile.CollidesWith | src/Missile.java:97-102 | never true for a missile argument; for any other sprite it is the bounds overlap |
| Sprites.Player.constructor | src/Player.java:14-17 | the player starts at (385, 525), on screen |
| Sprites.Player.ResetPosition | src/Player.java:36-39 | the player is put at (385, 525) |
| Sprites.Player.Move | src/Player.java:47-60 | x becomes the clamped old x + increment, so the player stays on screen; y moves by the increment, unclamped |
| Sprites.Player.CollidesWith | src/Player.java:68-73 | only enemies and missiles can collide with the player |
| Sprites.Player.Shoot | src/Player.java:79-84 | a new missile shot by the player, direction (0, -1), centred on the player's middle, its bottom edge at the player's y |
| Fleet.FleetShape | src/GameManager.java:45-86 | row sizes are 2, 6, 8, 10, 10, 10, so 46 in all; columns lie in 0..9, strictly increase along the row, and are symmetric about the middle of the ten columns |
| Fleet.CandidatesCount | src/GameManager.java:221-234 | each row contributes min(size, 2) dive candidates |
| Fleet.CandidatesConcat | src/GameManager.java:221-234 | candidates are collected row by row, in row order |
| Fleet.CandidatesAreEnds | src/GameManager.java:221-234 | an enemy is a candidate iff it is the first or the last enemy of a non-empty row |
| Fleet.InteriorNeverCandidate | src/GameManager.java:221-234 | in a formation without repetitions, an enemy strictly inside its row is never a candidate |
| Motion.Step | src/Enemy.java:82-120 | one movePattern call keeps the row and diving flag; it can only clear the entering flag; entering enemies and divers leave the direction alone; the direction stays ±1 |
| Motion.EnteringStep | src/Enemy.java:84-89 | an entering enemy moves down by exactly 0.2 with x unchanged, and stops entering once y reaches 40·row + 70; this takes precedence over diving |
| Motion.DivingNearBottomStep | src/Enemy.java:107-109 | a diver within 200 pixels of the bottom falls by 0.2 with x unchanged |
| Motion.FormationStep | src/Enemy.java:111-119 | a formation enemy moves sideways by direction·0.2/1.5 only; the direction becomes -1 past x = 770 and 1 below x = 0 |
| Motion.TurnAtRightEdge | src/Enemy.java:112-118 | once a marching enemy crosses the right edge, the next marching enemy of the same frame already moves left |
| Motion.March | src/GameManager.java:113-115 | the row loop keeps the row's size, row tags and diving flags, and keeps the direction ±1 |
| Motion.MarchRows | src/GameManager.java:112-116 | the formation loop keeps the number and size of rows and keeps the direction ±1 |
| Motion.MarchRowsStep | src/GameManager.java:112-116 | loop-proof lemma: the formation loop over one more row marches that row from the direction the earlier rows left |
| Motion.MarchNonFormation | src/Enemy.java:84-110 | entering enemies and divers move the same whatever the shared direction |
| Motion.MarchLockstep | src/Enemy.java:111-119 | when every enemy marches and none crosses an edge, all move by the same displacement and the direction is kept |
| Motion.MarchRowsLockstep | src/GameManager.java:112-116 | the lockstep property holds for the whole formation |
| Lists.RemoveAll | src/GameManager.java:180-188 | removeAll keeps exactly the elements not in the removal list, never lengthening the list |
| Lists.RemoveAllKeeps | src/GameManager.java:180-188 | removing nothing that is present leaves the list unchanged |
| Lists.RemoveAllAppend | src/GameManager.java:180-188 | removal distributes over concatenation, so spawned enemies appended to row 0 are swept like the rest |
| Lists.RemoveAllTwice | src/GameManager.java:180-188 | the divers' sweep followed by the kills' sweep is one sweep of both lists |
| Lists.RemoveAllDistinct | src/GameManager.java:180-188 | removal keeps a list free of repetitions |
| Lists.DistinctRowsRemoveAll | src/GameManager.java:181-188 | sweeping every row keeps the formation free of repetitions and only drops enemies |
| Lists.RemoveAllSameMembers | src/GameManager.java:180-188 | removal depends only on which elements the removal list contains |
| Lists.DistinctRowsExtend | src/GameManager.java:332-333 | appending new, distinct enemies to row 0 keeps the formation free of repetitions |
| Lists.MembersConcat | src/GameManager.java:59-85 | the enemies of appended rows are those of the old rows and the new ones |
| Lists.DistinctRowsConcat | src/GameManager.java:59-85 | appending a fleet of new enemies keeps the formation free of repetitions |
| Lists.FlattenMembers | src/GameManager.java:124-125 | the row-by-row enemy sequence holds exactly the formation's enemies |
| Lists.FlattenStep | src/GameManager.java:124-125 | loop-proof lemma: the row-by-row enemy sequence over one more row appends that row |
| Hits.StruckMembers | src/GameManager.java:124-134 | a missile's hits are exactly the listed enemies it overlaps |
| Hits.StruckStep | src/GameManager.java:125-133 | loop-proof lemma: the hit list over one more enemy of the row scan extends the list by that enemy's hit, if any |
| Hits.StruckRowsStep | src/GameManager.java:124-134 | a missile's hits over one more formation row |
| Hits.StruckAppend | src/GameManager.java:124-134 | hits distribute over concatenated enemy lists |
| Hits.SpentMissilesMembers | src/GameManager.java:122-157 | the removed missiles are exactly the player missiles that hit an enemy or a diver, and the enemy missiles that hit the player |
| Hits.MarkedStep | src/GameManager.java:136-147 | loop-proof lemma: one missile's diver pass over one more diver extends the marks by that diver's mark, if any |
| Hits.ContactStep | src/GameManager.java:159-172 | loop-proof lemma: the contact pass over one more diver extends the marks and the lives lost by that diver's share |
| Hits.MarkedMembers | src/GameManager.java:136-147 | one missile's pass marks exactly the divers it hits (if fired by the player) and the divers below the screen |
| Hits.ContactMarkedMembers | src/GameManager.java:159-172 | the contact pass marks exactly the divers touching the player and the divers below the screen |
| Hits.TurnsAt | src/GameManager.java:122-157 | turn i of the scan is missile i's turn |
| Hits.TotalStep | src/GameManager.java:122-157 | loop-proof lemma: the scan's findings over one more missile are the earlier findings followed by that missile's turn |
| Hits.TotalParts | src/GameManager.java:122-157 | the accumulated findings equal the formation kills, diver hits, missile losses, spent missiles and marked divers computed separately |
| Hits.ShotDownStep | src/GameManager.java:136-147 | loop-proof lemma: a diver is shot down by one more missile iff it already was or that missile is a player missile overlapping it |
| Hits.MarkedAllMembers | src/GameManager.java:136-147 | the missile passes mark only divers shot down or below the screen, and every diver shot down |
| Hits.DiversToRemoveMembers | src/GameManager.java:136-172 | the divers marked for removal are exactly those shot down, touching the player or below the screen |
| Hits.FormationKillsAreShotDown | src/GameManager.java:124-134 | every formation enemy marked for removal was overlapped by a player missile |
| Hits.ShotDownAreFormationKills | src/GameManager.java:124-134 | every formation enemy a player missile overlaps is marked for removal, so it leaves its row |
| Hits.KilledDiversAreMarked | src/GameManager.java:124-147 | a diver hit as a formation enemy is also marked for removal from the divers |
| Hits.EnemyFireNeverScores | src/GameManager.java:122-147 | missiles fired by enemies never change the score |
| Hits.PlayerFireNeverHurts | src/GameManager.java:149-156 | missiles fired by the player never cost a life |
| Hits.ScoreGainAppend | src/GameManager.java:122-147 | score adds up missile by missile |
| Hits.DiverScoresTwice | src/GameManager.java:126-142 | one player missile hitting a diver still in its row scores at least 30 |
| Game.FleetPrefixExtend | src/GameManager.java:44-86 | a row built by its rule extends a partly built fleet |
| Game.BuildRow | src/GameManager.java:45-85 | one fleet row: new, distinct enemies on the row's columns, each on its slot, with its row's colour and tags |
| Game.AppendRow | src/GameManager.java:45-86 | the fleet built so far, with the next row appended, stays well laid out and free of repetitions |
| Game.BuildFleet | src/GameManager.java:44-86 | six rows laid out by the fixed rules, of new enemies, with no enemy twice |
| Game.Rolled | src/GameManager.java:174-178 | the respawned entries are a selection of the kills, no more of them than kills |
| Game.RolledStep | src/GameManager.java:174-178 | loop-proof lemma: the respawn rolls over one more kill add it iff its draw is below 0.1 |
| Game.Firing | src/GameManager.java:203-213 | only divers more than 200 pixels above the bottom fire, at most one missile per diver entry |
| Game.FiringStep | src/GameManager.java:204-212 | loop-proof lemma: the fire decisions over one more diver add it iff its draw is below 0.0003 and it is high enough |
| Game.MoveEnemies | src/GameManager.java:113-115 | every enemy of a row moves as `Motion.March` says, with the direction threaded through |
| Game.MoveRow | src/GameManager.java:112-116 | one row moves as `Motion.March` says; the other rows do not move |
| Game.MoveRows | src/GameManager.java:112-116 | the formation moves as `Motion.MarchRows` says |
| Game.SweepShape | src/GameManager.java:174-188 | replacements appended to row 0 survive both sweeps, at the end of row 0; two sweeps equal one of both lists |
| Game.SweptRowsDistinct | src/GameManager.java:174-188 | after the sweep and the respawns no enemy appears twice in the formation |
| Game.SweptMembers | src/GameManager.java:174-188 | after the sweep each enemy is a survivor or a replacement |
| Game.DiversStayInRows | src/GameManager.java:180-188 | a diver that survives the sweep is still in a formation row |
| Game.ValidAfterFrame | src/GameManager.java:110-197 | the frame's bookkeeping survives any step that moves the lists and counters the way update does |
| Game.ValidAfterMove | src/GameManager.java:112-116 | the frame's bookkeeping survives the movement pass |
| Game.RowHits | src/GameManager.java:125-133 | the enemies of one row a missile hits: none for an enemy missile, otherwise exactly those it overlaps |
| Game.GameManager.constructor | src/GameManager.java:28-39 | a new game has score 0, 3 lives, 0 fleets destroyed, no missiles or divers, and one laid-out fleet |
| Game.GameManager.CreateEnemyFleet | src/GameManager.java:44-86 | exactly six rows are appended, the old rows are kept, and the new rows are a laid-out fleet; every enemy in them is newly allocated |
| Game.GameManager.MoveFormation | src/GameManager.java:112-116 | every formation enemy and the shared direction move as `Motion.MarchRows` says of the rows and direction before the pass; a direction of ±1 stays ±1 |
| Game.GameManager.MarchFormation | src/GameManager.java:112-116 | the formation and the direction move as `Motion.MarchRows` says; the lists are unchanged and the bookkeeping still holds |
| Game.GameManager.MoveMissiles | src/GameManager.java:122-123 | each missile advances by direction times speed on both axes |
| Game.GameManager.FormationHits | src/GameManager.java:124-134 | a player missile hits exactly the formation enemies it overlaps, in row order; an enemy missile hits none |
| Game.GameManager.DiverHits | src/GameManager.java:136-147 | a missile's pass over the divers: the divers it hits, and those marked for removal |
| Game.GameManager.ScanMissile | src/GameManager.java:122-157 | one missile's turn of the scan is `Hits.Turn` |
| Game.GameManager.ScanMissiles | src/GameManager.java:122-157 | the missile loop's findings are the turns' total, at 10 points per formation hit and 20 per diver hit |
| Game.GameManager.ScanDivers | src/GameManager.java:159-172 | the contact pass: one life per diver touching the player, and the divers it marks |
| Game.GameManager.ScanHits | src/GameManager.java:122-172 | both scans yield the points, the lives lost and the removal lists that the `Hits` functions define |
| Game.GameManager.CreateNewEnemyAtTop | src/GameManager.java:324-335 | exactly one new enemy, a replacement for the old one, is appended to row 0, whatever its row; the other rows are unchanged |
| Game.GameManager.SpawnReplacements | src/GameManager.java:174-178 | row 0 gains one new replacement per successful roll, in order; the other rows are unchanged |
| Game.GameManager.RemoveFromRows | src/GameManager.java:181-183 | every row loses exactly the listed enemies |
| Game.GameManager.Sweep | src/GameManager.java:174-193 | divers and missiles lose their removal lists; each row loses removed divers and kills; row 0 gains the replacements |
| Game.GameManager.CheckAndSpawnNewFleet | src/GameManager.java:341-360 | when every row is empty, one more fleet is counted and six new rows are appended; otherwise nothing changes |
| Game.GameManager.SweepAndRespawn | src/GameManager.java:174-196 | the sweep and respawn check keep the formation free of repetitions, keep six rows per fleet, and keep surviving divers in their rows |
| Game.GameManager.SweepKeepingValid | src/GameManager.java:174-196 | the same sweep and respawn check, with the whole bookkeeping kept |
| Game.GameManager.Charge | src/GameManager.java:129-165 | the score gains the points and lives drop by the losses; game over is signalled when lives were lost and are at or below 0 |
| Game.GameManager.Resolve | src/GameManager.java:118-196 | after the moves: score, lives, missiles, divers and rows become exactly what the scans of the state before it define; game over is set iff it already was or lives fell to 0 or below; a new fleet comes iff the rows were emptied; the bookkeeping holds |
| Game.SettledAfterResolve | src/GameManager.java:118-196 | Resolve's equations, stated in the state before it, still hold when the scans are read in the state after it |
| Game.GameManager.Settle | src/GameManager.java:118-196 | score, lives, missiles, divers and rows are what the scans of the given missiles, rows and divers define; the direction and every old enemy and missile object are unchanged |
| Game.GameManager.Update | src/GameManager.java:110-197 | the old enemies and the new direction are what `Motion.MarchRows` makes of the formation and direction before update, and each old missile is one stride from where it was; score, lives, missiles, divers and rows are what the scans of the moved missiles and rows define, over the lists from before update; score never falls, lives never rise, and no missile or diver appears; game over is set iff it already was or lives fell to 0 or below, and a new fleet comes iff the rows were emptied |
| Game.GameManager.Move | src/GameManager.java:112-123 | each missile advances by direction times speed, and the formation and direction move as `Motion.MarchRows` says; lists and counters are unchanged; the bookkeeping holds |
| Game.GameManager.GetDivingCandidates | src/GameManager.java:221-234 | the loop returns exactly `Fleet.Candidates` of the rows |
| Game.GameManager.MaybeTriggerDive | src/GameManager.java:239-248 | only when the draw is below 0.001 and there are candidates, the chosen candidate is set diving and appended to the divers, left in its row; otherwise nothing changes |
| Game.GameManager.Volley | src/GameManager.java:204-212 | one missile per firing diver, in diver order, all new and distinct, each leaving its shooter at the aimed start with the aim vector and speed 0.2 |
| Game.GameManager.FireNext | src/GameManager.java:205-210 | one diver's turn of the volley: its aimed shot is appended iff it fires, earlier shots kept |
| Game.GameManager.FireIfDrawn | src/GameManager.java:205-211 | a diver fires iff its draw is below 0.0003 and it is more than 200 pixels above the bottom |
| Game.GameManager.EnemyShootMissile | src/GameManager.java:203-213 | the old missiles are kept and the divers' shots are appended in diver order, each new and aimed from its shooter at speed 0.2 |
| Game.GameManager.PlayerShoots | src/Main.java:48-54 | the space bar appends one new player missile going straight up at speed 0.5 |
| Game.GameManager.Attack | src/Main.java:83-85 | the dive happens exactly as in MaybeTriggerDive, then the divers' new shots are appended, aimed from their shooters; the rows and counters are unchanged and the bookkeeping holds |
| Game.GameManager.Advance | src/Main.java:81-85 | update and then the enemies' turn keep the bookkeeping; the score never falls, lives never rise, and game over stays signalled |
| Game.GameManager.Steer | src/Main.java:89-94 | the player moves 0.25 right and then 0.25 left as the keys say, clamped each time; y is unchanged |
| Game.GameManager.Tick | src/Main.java:80-95 | one frame: the counters move only the way update moves them, the bookkeeping holds, the player is steered with y unchanged, and only positions, entering and diving flags, lists and counters change |

## Left out

- Rendering is not modelled:
  - the JavaFX scene graph, `render` and `getGameObjects`;
  - the game-over screen and the UI labels. `showGameOverScreen` is the `gameOver` flag, and the score that screen shows is not modelled.
- `nodesToRemove` and the `removeIf` passes are not modelled. They remove by shape node exactly what the `removeAll` lists already removed, so they change nothing.
- Rectangle overlap is the `Overlap` parameter. Only the type gating around it is modelled.
- Aim normalisation with `Math.sqrt` is the `Aim` parameter.
- Positions are exact `real`s, not `double`s. No rounding is modelled.
- `score`, `lives` and `fleetsDestroyed` are unbounded integers, not 32-bit `int`s. Wrap-around is not modelled, so "the score never falls" and "lives never rise" hold only while the Java counters do not overflow.
- `Math.random()` and `new Random().nextInt` are parameters.
- The static `Enemy.direction` is a field of the game manager. Each `MovePattern` call receives it and hands back the new value.
- Getters are not modelled; the model reads fields directly:
  - GameManager: `getPlayerXPosition`, `getScore`, `getLives`, `getFleetsDestroyed`, `getPlayer`, `getMissiles`;
  - Enemy: `getXPosition`, the row, column and colour getters;
  - Missile: speed, direction and shooter getters;
  - Player: position getters.
- The key listeners and the AnimationTimer are not modelled. Held keys are the `right` and `left` arguments of `Tick`; a space-bar press is `PlayerShoots`.
- Game.GameManager.Update: score and lives are changed once, after both scans, by the scan totals, not one hit at a time. The final values are the same. Game over is signalled iff some decrement left lives at or below 0, which holds iff lives fell and end at or below 0, since lives only fall.
- Game.GameManager.MoveMissiles: all missiles move before the scan, not each one just before its own scan. A missile's scan reads no other missile, so the outcome is the same.
- Game.GameManager.CreateEnemyFleet: the six rows are built first and then appended together. Nothing reads the rows while the fleet is built, so the outcome is the same.
- Game.GameManager.Move: the missile pass runs before the formation pass. The two passes write disjoint objects, and neither reads what the other writes, so the state after both is the same.
- Game.GameManager.Advance: states only the invariant, the monotone counters and game over. It does not restate the new lists, divers, missiles or positions; `Update` and `Attack` state those exactly.
- Game.GameManager.Tick: states the invariant, the monotone counters, game over and the player's move. The exact equations are in `Update`, `Attack` and `Steer`, because the states between those calls cannot be named in its postcondition.
- Game.GameManager.SweepAndRespawn: states that the rows keep the survivors and gain the replacements, and that every enemy is old or new. It does not state which positions hold the new replacement objects; `Sweep` proves that.
- Game.GameManager.EnemyShootMissile: the new missiles are appended after the loop, not one at a time inside it. The loop reads no missile, so the outcome is the same.
