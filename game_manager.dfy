/**
 * The game manager: the formation rows, the diver list, the missile list and
 * the score, lives and fleet counters, updated in place frame by frame.
 */
module Game {
  import opened Geometry
  import opened Lists
  import opened Fleet
  import opened Motion
  import opened Sprites
  import opened Hits

  /** Chance per frame that a dive is attempted. */
  const DiveProbability: real := 0.001
  /** Chance per frame and diver that the diver fires. */
  const FireProbability: real := 0.0003
  /** Chance per formation hit that a replacement is spawned. */
  const RespawnProbability: real := 0.1
  /** Speed the key handler gives a player missile. */
  const PlayerMissileSpeed: real := 0.5

  /** A formation enemy just placed on slot (col, row), with its row's colour. */
  ghost predicate AtSlot(e: Enemy, row: int, col: int)
    requires 0 <= row < FleetRows
    reads e
  {
    && e.row == row && e.column == col && e.color == RowColor(row)
    && e.x == SlotX(col) && e.y == SlotY(row) && !e.diving && !e.movingDown
  }

  /** The first rows of a fleet, each laid out by its fixed rule. */
  ghost predicate FleetPrefix(rows: seq<seq<Enemy>>)
    reads Members(rows)
  {
    && |rows| <= FleetRows
    && forall r :: 0 <= r < |rows| ==>
         && |rows[r]| == |FleetColumns(r)|
         && forall k :: 0 <= k < |rows[r]| ==> AtSlot(rows[r][k], r, FleetColumns(r)[k])
  }

  /** Six rows laid out by the fixed per-row rules. */
  ghost predicate IsFleet(rows: seq<seq<Enemy>>)
    reads Members(rows)
  {
    |rows| == FleetRows && FleetPrefix(rows)
  }

  /** A fleet prefix stays one while none of its enemies changes. */
  twostate lemma FleetPrefixFramed(new rows: seq<seq<Enemy>>)
    requires old(allocated(rows)) && old(FleetPrefix(rows))
    requires forall r, k :: 0 <= r < |rows| && 0 <= k < |rows[r]| ==> unchanged(rows[r][k])
    ensures FleetPrefix(rows)
  {
  }

  /** A row built by its rule extends a fleet prefix. */
  lemma FleetPrefixExtend(rows: seq<seq<Enemy>>, row: seq<Enemy>)
    requires FleetPrefix(rows) && |rows| < FleetRows
    requires |row| == |FleetColumns(|rows|)|
    requires forall k :: 0 <= k < |row| ==> AtSlot(row[k], |rows|, FleetColumns(|rows|)[k])
    ensures FleetPrefix(rows + [row])
  {
    var all := rows + [row];
    forall r | 0 <= r < |all|
      ensures |all[r]| == |FleetColumns(r)|
      ensures forall k :: 0 <= k < |all[r]| ==> AtSlot(all[r][k], r, FleetColumns(r)[k])
    {
      if r < |rows| {
        assert all[r] == rows[r];
      }
    }
  }

  /**
   * A replacement for gone: same row, column and colour, placed at gone's x
   * on the top edge, entering and not diving.
   */
  ghost predicate Replaces(e: Enemy, gone: Enemy)
    reads e, gone
  {
    && e.row == gone.row && e.column == gone.column && e.color == gone.color
    && e.x == gone.x && e.y == 0.0 && e.movingDown && !e.diving
  }

  /** Replacements keep replacing their originals while neither changes. */
  twostate lemma ReplacesFramed(new spawned: seq<Enemy>, new gone: seq<Enemy>)
    requires |spawned| <= |gone| && old(allocated(spawned)) && old(allocated(gone))
    requires unchanged(spawned) && unchanged(gone)
    requires forall j :: 0 <= j < |spawned| ==> old(Replaces(spawned[j], gone[j]))
    ensures forall j :: 0 <= j < |spawned| ==> Replaces(spawned[j], gone[j])
  {
  }

  /** The entries of kills whose respawn draw (one per entry, in order) succeeds. */
  function Rolled(kills: seq<Enemy>, draws: nat -> real): (r: seq<Enemy>)
    ensures |r| <= |kills|
    ensures forall e :: e in r ==> e in kills
  {
    if kills == [] then []
    else
      var n := |kills| - 1;
      Rolled(kills[..n], draws) + (if draws(n) < RespawnProbability then [kills[n]] else [])
  }

  /** A diver at height y fires on draw when the draw is below FireProbability and it is high enough. */
  predicate Fires(draw: real, y: real) {
    draw < FireProbability && DistanceFromBottom(y) > HomingFloor
  }

  /** The respawn rolls over one more entry of kills. */
  lemma RolledStep(kills: seq<Enemy>, k: nat, draws: nat -> real)
    requires k < |kills|
    ensures Rolled(kills[..k + 1], draws) ==
      Rolled(kills[..k], draws) + (if draws(k) < RespawnProbability then [kills[k]] else [])
  {
    assert kills[..k + 1][..k] == kills[..k];
  }

  /**
   * The divers that fire this frame: those whose draw (one per diver entry,
   * in order) is below the fire probability and that are far enough from
   * the bottom to shoot.
   */
  function Firing(divers: seq<Enemy>, draws: nat -> real): (r: seq<Enemy>)
    reads divers
    ensures |r| <= |divers|
    ensures forall d :: d in r ==> d in divers && DistanceFromBottom(d.y) > HomingFloor
  {
    if divers == [] then []
    else
      var n := |divers| - 1;
      var d := divers[n];
      Firing(divers[..n], draws) + (if Fires(draws(n), d.y) then [d] else [])
  }

  /** Where and how an enemy's aimed missile leaves it. */
  ghost predicate AimedFrom(m: Missile, e: Enemy, p: Player, aim: Aim)
    reads m, e, p
  {
    && m.shooter == EnemySprite(e)
    && m.x + MissileWidth / 2.0 == e.x + EnemySize / 2.0 && m.y + MissileHeight == e.y + EnemySize
    && (m.directionX, m.directionY) == aim(p.x - e.x, p.y - e.y)
    && m.speed == EnemyMissileSpeed
  }

  /** Each missile of fired left the enemy at the same place in shooters, aimed at the player. */
  ghost predicate Aimed(fired: seq<Missile>, shooters: seq<Enemy>, p: Player, aim: Aim)
    reads fired, shooters, p
  {
    |fired| == |shooters| && forall j :: 0 <= j < |fired| ==> AimedFrom(fired[j], shooters[j], p, aim)
  }

  /** The missiles of ms were fired by the enemies of es, one each, in order. */
  predicate ShotBy(ms: seq<Missile>, es: seq<Enemy>) {
    |ms| == |es| && forall j :: 0 <= j < |ms| ==> ms[j].shooter == EnemySprite(es[j])
  }

  /** Firing over one more diver. */
  lemma FiringStep(divers: seq<Enemy>, k: nat, draws: nat -> real)
    requires k < |divers|
    ensures Firing(divers[..k + 1], draws) ==
      Firing(divers[..k], draws)
        + (if Fires(draws(k), divers[k].y) then [divers[k]] else [])
  {
    assert divers[..k + 1][..k] == divers[..k];
  }

  /** Firing over one more diver, in the earlier of two states. */
  twostate lemma FiringStepBefore(new divers: seq<Enemy>, k: nat, new draws: nat -> real)
    requires k < |divers| && old(allocated(divers))
    ensures old(Firing(divers[..k + 1], draws)) ==
      old(Firing(divers[..k], draws))
        + (if Fires(draws(k), old(divers[k].y)) then [divers[k]] else [])
  {
    assert divers[..k + 1][..k] == divers[..k];
  }

  /** One row of a new fleet (the body of createEnemyFleet's row loop). */
  method BuildRow(row: int) returns (enemyRow: seq<Enemy>)
    requires 0 <= row < FleetRows
    ensures |enemyRow| == |FleetColumns(row)| && Distinct(enemyRow)
    ensures forall k :: 0 <= k < |enemyRow| ==> fresh(enemyRow[k]) && AtSlot(enemyRow[k], row, FleetColumns(row)[k])
  {
    enemyRow := [];
    if row == 0 {
      for col := 0 to 10
        invariant |enemyRow| == (if col > 6 then 2 else if col > 3 then 1 else 0)
        invariant forall k :: 0 <= k < |enemyRow| ==> fresh(enemyRow[k]) && AtSlot(enemyRow[k], 0, [3, 6][k])
        invariant Distinct(enemyRow)
      {
        if col == 3 || col == 6 {
          var enemy := new Enemy(RowColor(row), row, col);
          enemy.ResetPosition(col, row);
          enemyRow := enemyRow + [enemy];
        }
      }
      return;
    }
    var numEnemies, startCol;
    if row == 1 {
      numEnemies, startCol := 6, 2;
    } else if row == 2 {
      numEnemies, startCol := 8, 1;
    } else {
      numEnemies, startCol := 10, 0;
    }
    assert FleetColumns(row) == Range(startCol, numEnemies);
    for col := 0 to numEnemies
      invariant |enemyRow| == col
      invariant forall k :: 0 <= k < col ==> fresh(enemyRow[k]) && AtSlot(enemyRow[k], row, startCol + k)
      invariant Distinct(enemyRow)
    {
      var enemy := new Enemy(RowColor(row), row, startCol + col);
      enemy.ResetPosition(startCol + col, row);
      enemyRow := enemyRow + [enemy];
    }
  }

  /** The rows of a new fleet, built one after the other (createEnemyFleet's row loop). */
  method BuildFleet() returns (fleet: seq<seq<Enemy>>)
    ensures IsFleet(fleet) && DistinctRows(fleet)
    ensures forall e :: e in Members(fleet) ==> fresh(e)
  {
    fleet := [];
    for row := 0 to FleetRows
      invariant |fleet| == row && FleetPrefix(fleet) && DistinctRows(fleet)
      invariant forall e :: e in Members(fleet) ==> fresh(e)
    {
      fleet := AppendRow(fleet);
    }
  }

  /** The fleet prefix with its next row built and appended. */
  method AppendRow(fleet: seq<seq<Enemy>>) returns (longer: seq<seq<Enemy>>)
    requires |fleet| < FleetRows && FleetPrefix(fleet) && DistinctRows(fleet)
    ensures |longer| == |fleet| + 1 && longer[..|fleet|] == fleet
    ensures FleetPrefix(longer) && DistinctRows(longer)
    ensures forall e :: e in Members(longer) ==> e in Members(fleet) || fresh(e)
  {
    var enemyRow := BuildRow(|fleet|);
    FleetPrefixFramed(fleet);
    forall x | x in Members([enemyRow]) ensures x !in Members(fleet) && fresh(x) {
      var r, k :| 0 <= r < 1 && 0 <= k < |enemyRow| && [enemyRow][r][k] == x;
      assert x == enemyRow[k];
    }
    DistinctRowsConcat(fleet, [enemyRow]);
    FleetPrefixExtend(fleet, enemyRow);
    longer := fleet + [enemyRow];
    assert longer[..|fleet|] == fleet;
  }

  /** The movement-relevant state of each enemy of a row. */
  ghost function Snapshot(es: seq<Enemy>): (r: seq<EnemyState>)
    reads es
    ensures |r| == |es| && forall k :: 0 <= k < |es| ==> r[k] == es[k].State()
  {
    seq(|es|, k requires 0 <= k < |es| reads es => es[k].State())
  }

  /** The movement-relevant state of the whole formation. */
  ghost function RowsSnapshot(rows: seq<seq<Enemy>>): (r: seq<seq<EnemyState>>)
    reads Members(rows)
    ensures |r| == |rows| && forall i :: 0 <= i < |rows| ==> r[i] == Snapshot(rows[i])
  {
    seq(|rows|, i requires 0 <= i < |rows| reads Members(rows) => Snapshot(rows[i]))
  }

  /** Enemies whose moving fields did not change keep their snapshot. */
  twostate lemma SnapshotUnchanged(es: seq<Enemy>)
    requires forall k :: 0 <= k < |es| ==>
      old(es[k].x) == es[k].x && old(es[k].y) == es[k].y && old(es[k].movingDown) == es[k].movingDown
      && old(es[k].diving) == es[k].diving
    ensures Snapshot(es) == old(Snapshot(es))
  {
  }

  /**
   * The inner loop of update's movement pass: movePattern on each enemy of
   * one row in turn, threading the shared direction.
   */
  method MoveEnemies(row: seq<Enemy>, direction: int, playerX: real, playerY: real, aim: Aim) returns (newDirection: int)
    requires Distinct(row)
    modifies row`x, row`y, row`movingDown
    ensures var m := March(old(Snapshot(row)), direction, playerX, playerY, aim);
      newDirection == m.1 && forall k :: 0 <= k < |row| ==> row[k].State() == m.0[k]
  {
    ghost var start := Snapshot(row);
    newDirection := direction;
    for k := 0 to |row|
      invariant var m := March(start[..k], direction, playerX, playerY, aim);
        newDirection == m.1 && forall j :: 0 <= j < k ==> row[j].State() == m.0[j]
      invariant forall j :: k <= j < |row| ==> row[j].State() == start[j]
    {
      newDirection := row[k].MovePattern(newDirection, playerX, playerY, aim);
      assert start[..k + 1][..k] == start[..k];
    }
    assert start[..|row|] == start;
  }

  /** Row r of the formation moves as its enemies' loop says; the other rows stay put. */
  method MoveRow(rows: seq<seq<Enemy>>, r: nat, direction: int, playerX: real, playerY: real, aim: Aim)
    returns (newDirection: int)
    requires r < |rows| && DistinctRows(rows)
    modifies rows[r]`x, rows[r]`y, rows[r]`movingDown
    ensures (Snapshot(rows[r]), newDirection) == March(old(Snapshot(rows[r])), direction, playerX, playerY, aim)
    ensures forall i :: 0 <= i < |rows| && i != r ==> Snapshot(rows[i]) == old(Snapshot(rows[i]))
  {
    newDirection := MoveEnemies(rows[r], direction, playerX, playerY, aim);
    assert Snapshot(rows[r]) == March(old(Snapshot(rows[r])), direction, playerX, playerY, aim).0;
    forall i | 0 <= i < |rows| && i != r ensures Snapshot(rows[i]) == old(Snapshot(rows[i])) {
      forall k | 0 <= k < |rows[i]| ensures rows[i][k] !in rows[r] {
        assert rows[i][k] in rows[i];
      }
      SnapshotUnchanged(rows[i]);
    }
  }

  /** The formation loop of update's movement pass, row after row. */
  method MoveRows(rows: seq<seq<Enemy>>, direction: int, playerX: real, playerY: real, aim: Aim) returns (newDirection: int)
    requires DistinctRows(rows)
    modifies Members(rows)`x, Members(rows)`y, Members(rows)`movingDown
    ensures var m := MarchRows(old(RowsSnapshot(rows)), direction, playerX, playerY, aim);
      newDirection == m.1 && forall i :: 0 <= i < |rows| ==> Snapshot(rows[i]) == m.0[i]
  {
    newDirection := direction;
    ghost var start := RowsSnapshot(rows);
    ghost var moved: seq<seq<EnemyState>> := [];
    for r := 0 to |rows|
      invariant (moved, newDirection) == MarchRows(start[..r], direction, playerX, playerY, aim)
      invariant forall i :: 0 <= i < r ==> Snapshot(rows[i]) == moved[i]
      invariant forall i :: r <= i < |rows| ==> Snapshot(rows[i]) == start[i]
    {
      MarchRowsStep(start, r, direction, playerX, playerY, aim);
      newDirection := MoveRow(rows, r, newDirection, playerX, playerY, aim);
      moved := moved + [Snapshot(rows[r])];
    }
    assert start[..|rows|] == start;
  }

  /**
   * Every row after removing gone from it, with replacements for rolled
   * appended, in order, to the first row.
   */
  ghost predicate Pruned(after: seq<seq<Enemy>>, before: seq<seq<Enemy>>, gone: seq<Enemy>, rolled: seq<Enemy>)
    reads Members(after), rolled
  {
    && |after| == |before| > 0
    && (forall r :: 1 <= r < |before| ==> after[r] == RemoveAll(before[r], gone))
    && var kept := RemoveAll(before[0], gone);
       && |after[0]| == |kept| + |rolled| && after[0][..|kept|] == kept
       && forall j :: 0 <= j < |rolled| ==> Replaces(after[0][|kept| + j], rolled[j])
  }

  /**
   * The rows after update's two sweeps: with the spawned replacements
   * appended to row 0, removing divers and then kills from every row is
   * removing both lists at once, and leaves the replacements at the end of
   * row 0.
   */
  lemma SweepShape(rows: seq<seq<Enemy>>, spawned: seq<Enemy>, divers: seq<Enemy>, kills: seq<Enemy>, swept: seq<seq<Enemy>>)
    requires |rows| > 0 && forall x :: x in spawned ==> x !in divers + kills
    requires |swept| == |rows|
    requires swept[0] == RemoveAll(RemoveAll(rows[0] + spawned, divers), kills)
    requires forall r :: 1 <= r < |rows| ==> swept[r] == RemoveAll(RemoveAll(rows[r], divers), kills)
    ensures swept[0] == RemoveAll(rows[0], divers + kills) + spawned
    ensures forall r :: 1 <= r < |rows| ==> swept[r] == RemoveAll(rows[r], divers + kills)
  {
    RemoveAllTwice(rows[0] + spawned, divers, kills);
    RemoveAllAppend(rows[0], spawned, divers + kills);
    RemoveAllKeeps(spawned, divers + kills);
    forall r | 1 <= r < |rows| ensures swept[r] == RemoveAll(rows[r], divers + kills) {
      RemoveAllTwice(rows[r], divers, kills);
    }
  }

  /**
   * The swept rows are free of repetitions: removal keeps the rows so, and
   * the replacements appended to row 0 are new and distinct.
   */
  lemma SweptRowsDistinct(rows: seq<seq<Enemy>>, spawned: seq<Enemy>, gone: seq<Enemy>, swept: seq<seq<Enemy>>)
    requires DistinctRows(rows) && |rows| > 0 && Distinct(spawned)
    requires forall x :: x in spawned ==> x !in Members(rows)
    requires |swept| == |rows| && swept[0] == RemoveAll(rows[0], gone) + spawned
    requires forall r :: 1 <= r < |rows| ==> swept[r] == RemoveAll(rows[r], gone)
    ensures DistinctRows(swept)
  {
    var pruned := seq(|rows|, r requires 0 <= r < |rows| => RemoveAll(rows[r], gone));
    DistinctRowsRemoveAll(rows, gone, pruned);
    DistinctRowsExtend(pruned, spawned);
    assert swept == pruned[0 := pruned[0] + spawned];
  }

  /** Every enemy of the swept rows was in the rows before or is a replacement. */
  lemma SweptMembers(rows: seq<seq<Enemy>>, spawned: seq<Enemy>, gone: seq<Enemy>, swept: seq<seq<Enemy>>)
    requires |rows| > 0 && |swept| == |rows| && swept[0] == RemoveAll(rows[0], gone) + spawned
    requires forall r :: 1 <= r < |rows| ==> swept[r] == RemoveAll(rows[r], gone)
    ensures forall e :: e in Members(swept) ==> (e in Members(rows) && e !in gone) || e in spawned
  {
    forall e | e in Members(swept) ensures (e in Members(rows) && e !in gone) || e in spawned {
      var r, k :| 0 <= r < |swept| && 0 <= k < |swept[r]| && swept[r][k] == e;
      if e !in spawned {
        assert e in RemoveAll(rows[r], gone);
        var i :| 0 <= i < |rows[r]| && rows[r][i] == e;
      }
    }
  }

  /**
   * A diver that survives the sweep is still in a formation row: it was in
   * one before, and it is not a formation kill unless it is also a removed
   * diver.
   */
  lemma DiversStayInRows(rows: seq<seq<Enemy>>, divers: seq<Enemy>, gone: seq<Enemy>, kills: seq<Enemy>, swept: seq<seq<Enemy>>)
    requires forall d :: d in divers ==> d in Members(rows)
    requires forall d :: d in divers && d in kills ==> d in gone
    requires |swept| == |rows|
    requires forall r, x :: 0 <= r < |rows| && x in RemoveAll(rows[r], gone + kills) ==> x in swept[r]
    ensures forall d :: d in RemoveAll(divers, gone) ==> d in Members(swept)
  {
    forall d | d in RemoveAll(divers, gone) ensures d in Members(swept) {
      var r, k :| 0 <= r < |rows| && 0 <= k < |rows[r]| && rows[r][k] == d;
      assert d in RemoveAll(rows[r], gone + kills);
      var i :| 0 <= i < |swept[r]| && swept[r][i] == d;
    }
  }

  /**
   * The frame's bookkeeping survives a step that keeps the player, the
   * direction and the surviving divers as they were, keeps the formation
   * and the missiles free of repetitions, keeps six rows per fleet, and
   * moves the counters only the way update moves them.
   */
  twostate lemma ValidAfterFrame(new gm: GameManager)
    requires old(allocated(gm)) && old(gm.Valid())
    requires unchanged(gm.player) && old(allocated(gm.divingEnemies)) && unchanged(old(gm.divingEnemies))
    requires gm.direction == old(gm.direction)
    requires gm.fleetsDestroyed >= 0 && |gm.enemies| == FleetRows * (gm.fleetsDestroyed + 1)
    requires DistinctRows(gm.enemies) && Distinct(gm.missiles)
    requires forall d :: d in gm.divingEnemies ==> d in Members(gm.enemies) && d in old(gm.divingEnemies)
    requires gm.score >= old(gm.score) && gm.lives <= old(gm.lives) && (gm.gameOver ==> gm.lives <= 0)
    ensures gm.Valid()
  {
  }

  /**
   * The frame's bookkeeping survives the movement pass: only positions,
   * entering flags and the shared direction change.
   */
  twostate lemma ValidAfterMove(new gm: GameManager)
    requires old(allocated(gm)) && old(gm.Valid())
    requires unchanged(gm.player) && IsDirection(gm.direction)
    requires gm.enemies == old(gm.enemies) && gm.divingEnemies == old(gm.divingEnemies) && gm.missiles == old(gm.missiles)
    requires gm.score == old(gm.score) && gm.lives == old(gm.lives)
    requires gm.fleetsDestroyed == old(gm.fleetsDestroyed) && gm.gameOver == old(gm.gameOver)
    requires forall d :: d in gm.divingEnemies ==> d.diving
    ensures gm.Valid()
  {
  }

  /**
   * The formation is where movePattern, run row after row from the rows'
   * snapshot before and the shared direction before, puts it: the shared
   * direction and every row's enemies are what MarchRows computes.
   */
  ghost predicate MarchedFrom(before: seq<seq<EnemyState>>, direction: int, gm: GameManager, aim: Aim)
    reads gm, gm.player, Members(gm.enemies)
  {
    Marched(before, direction, gm.enemies, gm.direction, gm.player, aim)
  }

  /** The rows and the new shared direction are what MarchRows computes from the snapshot before and the direction before. */
  ghost predicate Marched(before: seq<seq<EnemyState>>, direction: int, rows: seq<seq<Enemy>>, newDirection: int, p: Player, aim: Aim)
    reads p, Members(rows)
  {
    var m := MarchRows(before, direction, p.x, p.y, aim);
    newDirection == m.1 && |rows| == |m.0| && forall i :: 0 <= i < |rows| ==> Snapshot(rows[i]) == m.0[i]
  }

  /** Where each missile is. */
  ghost function Positions(ms: seq<Missile>): (r: seq<(real, real)>)
    reads ms
    ensures |r| == |ms| && forall j :: 0 <= j < |ms| ==> r[j] == (ms[j].x, ms[j].y)
  {
    seq(|ms|, j requires 0 <= j < |ms| reads ms => (ms[j].x, ms[j].y))
  }

  /** Each missile has moved one stride, its direction times its speed, from where it was before. */
  ghost predicate Strode(before: seq<(real, real)>, ms: seq<Missile>)
    reads ms
  {
    && |before| == |ms|
    && forall j :: 0 <= j < |ms| ==>
      && ms[j].x == before[j].0 + Stride(ms[j].directionX, ms[j].speed)
      && ms[j].y == before[j].1 + Stride(ms[j].directionY, ms[j].speed)
  }

  /**
   * update's scoring and sweep, seen from the lists and counters before
   * them (ms, rows, ds, score0, lives0) in the state after them: the score
   * and lives moved by what the missile and diver passes found, the spent
   * missiles and the removed divers are gone, and the rows were pruned with
   * replacements for the rolled kills.
   */
  ghost predicate Settled(gm: GameManager, ms: seq<Missile>, rows: seq<seq<Enemy>>, ds: seq<Enemy>, score0: int, lives0: int,
                          hit: Overlap, spawnDraws: nat -> real)
    reads gm, gm.player, ms, Flatten(rows), ds, Members(gm.enemies)
    reads if |rows| <= |gm.enemies| then Members(gm.enemies[..|rows|]) else {}
    reads Rolled(FormationKills(ms, Flatten(rows), hit), spawnDraws)
  {
    && gm.score == score0 + ScoreGain(ms, Flatten(rows), ds, hit)
    && gm.lives == lives0 - MissileLosses(ms, gm.player, hit) - ContactLosses(ds, gm.player, hit)
    && gm.missiles == RemoveAll(ms, SpentMissiles(ms, Flatten(rows), ds, gm.player, hit))
    && gm.divingEnemies == RemoveAll(ds, MarkedAll(ms, ds, hit) + ContactMarked(ds, gm.player, hit))
    && |gm.enemies| >= |rows|
    && Pruned(gm.enemies[..|rows|], rows,
              MarkedAll(ms, ds, hit) + ContactMarked(ds, gm.player, hit) + FormationKills(ms, Flatten(rows), hit),
              Rolled(FormationKills(ms, Flatten(rows), hit), spawnDraws))
  }

  /**
   * update's scoring and sweep from the previous state: the score and
   * lives moved by what the missile and diver passes found there, the spent
   * missiles and the removed divers are gone, and the rows were pruned with
   * replacements for the rolled kills.
   */
  twostate predicate Resolved(gm: GameManager, hit: Overlap, spawnDraws: nat -> real)
    requires old(allocated(gm))
    reads *
  {
    && gm.score == old(gm.score + ScoreGain(gm.missiles, Flatten(gm.enemies), gm.divingEnemies, hit))
    && gm.lives == old(gm.lives - MissileLosses(gm.missiles, gm.player, hit) - ContactLosses(gm.divingEnemies, gm.player, hit))
    && gm.missiles == RemoveAll(old(gm.missiles), old(SpentMissiles(gm.missiles, Flatten(gm.enemies), gm.divingEnemies, gm.player, hit)))
    && gm.divingEnemies == RemoveAll(old(gm.divingEnemies), old(MarkedAll(gm.missiles, gm.divingEnemies, hit) + ContactMarked(gm.divingEnemies, gm.player, hit)))
    && |gm.enemies| >= |old(gm.enemies)|
    && var kills := old(FormationKills(gm.missiles, Flatten(gm.enemies), hit));
       var gone := old(MarkedAll(gm.missiles, gm.divingEnemies, hit) + ContactMarked(gm.divingEnemies, gm.player, hit)) + kills;
       Pruned(gm.enemies[..|old(gm.enemies)|], old(gm.enemies), gone, Rolled(kills, spawnDraws))
  }

  /** Resolve's equations, stated over the state before it, still hold read in the state after it. */
  twostate lemma SettledAfterResolve(new gm: GameManager, new ms: seq<Missile>, new rows: seq<seq<Enemy>>, new ds: seq<Enemy>,
                                     new hit: Overlap, new spawnDraws: nat -> real)
    requires old(allocated(gm)) && ms == old(gm.missiles) && rows == old(gm.enemies) && ds == old(gm.divingEnemies)
    requires old(allocated(ms)) && old(allocated(Flatten(rows))) && old(allocated(ds))
    requires unchanged(gm.player) && unchanged(ms) && unchanged(Flatten(rows)) && unchanged(ds)
    requires Resolved(gm, hit, spawnDraws)
    ensures Settled(gm, ms, rows, ds, old(gm.score), old(gm.lives), hit, spawnDraws)
  {
    ScanFramed(ms, Flatten(rows), ds, gm.player, hit);
    ContactFramed(ds, gm.player, hit);
  }

  /** Distance covered in one frame along one axis: direction times speed. */
  function Stride(direction: real, speed: real): real {
    direction * speed
  }

  /** The enemies of one formation row that a player missile m hits, in order. */
  method RowHits(m: Missile, enemyRow: seq<Enemy>, hit: Overlap) returns (rowHits: seq<Enemy>)
    ensures rowHits == (if FiredByPlayer(m) then Struck(m, enemyRow, hit) else [])
  {
    rowHits := [];
    for k := 0 to |enemyRow|
      invariant rowHits == (if FiredByPlayer(m) then Struck(m, enemyRow[..k], hit) else [])
    {
      var enemy := enemyRow[k];
      StruckStep(m, enemyRow, k, hit);
      if m.CollidesWith(EnemySprite(enemy), hit) && FiredByPlayer(m) {
        rowHits := rowHits + [enemy];
      }
    }
    assert enemyRow[..|enemyRow|] == enemyRow;
  }

  class GameManager {
    const player: Player
    /** The formation rows; createEnemyFleet appends six more per fleet. */
    var enemies: seq<seq<Enemy>>
    /** Divers, in dive order; a diver also stays in its formation row. */
    var divingEnemies: seq<Enemy>
    var missiles: seq<Missile>
    var score: int
    var lives: int
    var fleetsDestroyed: int
    /** The formation's shared left/right direction (Enemy.direction). */
    var direction: int
    /** Set once the game-over screen has been shown. */
    var gameOver: bool

    /**
     * The bookkeeping every frame keeps: six rows per fleet built so far,
     * no enemy in two places of the formation, no missile listed twice,
     * every diver still in the formation and marked diving, and counters
     * that only moved the way update moves them.
     */
    ghost predicate Valid()
      reads this, player, divingEnemies
    {
      && player.Valid()
      && fleetsDestroyed >= 0
      && |enemies| == FleetRows * (fleetsDestroyed + 1)
      && IsDirection(direction)
      && DistinctRows(enemies)
      && Distinct(missiles)
      && (forall d :: d in divingEnemies ==> d in Members(enemies) && d.diving)
      && score >= 0 && lives <= 3
      && (gameOver ==> lives <= 0)
    }

    /** A new game: score 0, three lives, no divers or missiles, one fleet. */
    constructor ()
      ensures Valid()
      ensures score == 0 && lives == 3 && fleetsDestroyed == 0 && !gameOver
      ensures missiles == [] && divingEnemies == [] && direction == 1
      ensures IsFleet(enemies) && forall e :: e in Members(enemies) ==> fresh(e)
      ensures fresh(player) && player.x == PlayerStartX && player.y == PlayerStartY
    {
      player := new Player();
      enemies := [];
      missiles := [];
      divingEnemies := [];
      score, lives, fleetsDestroyed := 0, 3, 0;
      direction := 1;
      gameOver := false;
      new;
      CreateEnemyFleet();
      assert enemies[0..] == enemies;
    }

    /** Appends a full fleet below the rows already present, never clearing them. */
    method CreateEnemyFleet()
      modifies this`enemies
      ensures |enemies| == |old(enemies)| + FleetRows
      ensures enemies[..|old(enemies)|] == old(enemies)
      ensures IsFleet(enemies[|old(enemies)|..]) && DistinctRows(enemies[|old(enemies)|..])
      ensures forall e :: e in Members(enemies) ==> e in Members(old(enemies)) || fresh(e)
      ensures forall i, k :: |old(enemies)| <= i < |enemies| && 0 <= k < |enemies[i]| ==> fresh(enemies[i][k])
    {
      var fleet := BuildFleet();
      MembersConcat(enemies, fleet);
      enemies := enemies + fleet;
      assert enemies[|old(enemies)|..] == fleet;
    }

    /**
     * update's movement pass: movePattern on every formation enemy, row by
     * row, with the shared direction carried from one enemy to the next.
     */
    method MoveFormation(aim: Aim)
      requires DistinctRows(enemies)
      modifies this`direction, Members(enemies)`x, Members(enemies)`y, Members(enemies)`movingDown
      ensures MarchedFrom(old(RowsSnapshot(enemies)), old(direction), this, aim)
      ensures IsDirection(old(direction)) ==> IsDirection(direction)
    {
      var d := MoveRows(enemies, direction, player.x, player.y, aim);
      label moved:
      direction := d;
      forall i | 0 <= i < |enemies| ensures Snapshot(enemies[i]) == old@moved(Snapshot(enemies[i])) {
        SnapshotUnchanged@moved(enemies[i]);
      }
    }

    /** Each missile advances by its direction times its speed. */
    method MoveMissiles()
      requires Distinct(missiles)
      modifies missiles`x, missiles`y
      ensures forall j :: 0 <= j < |missiles| ==>
        && missiles[j].x == old(missiles[j].x) + Stride(missiles[j].directionX, missiles[j].speed)
        && missiles[j].y == old(missiles[j].y) + Stride(missiles[j].directionY, missiles[j].speed)
    {
      for i := 0 to |missiles|
        invariant forall j :: 0 <= j < i ==>
          && missiles[j].x == old(missiles[j].x) + Stride(missiles[j].directionX, missiles[j].speed)
          && missiles[j].y == old(missiles[j].y) + Stride(missiles[j].directionY, missiles[j].speed)
        invariant forall j :: i <= j < |missiles| ==> missiles[j].x == old(missiles[j].x) && missiles[j].y == old(missiles[j].y)
      {
        var missile := missiles[i];
        missile.Move(Stride(missile.directionX, missile.speed), Stride(missile.directionY, missile.speed));
      }
    }

    /** The formation enemies missile m hits, row after row, in update's order. */
    method FormationHits(m: Missile, hit: Overlap) returns (hits: seq<Enemy>)
      ensures hits == (if FiredByPlayer(m) then Struck(m, Flatten(enemies), hit) else [])
    {
      var rows := enemies;
      hits := [];
      ghost var seen: seq<Enemy> := [];
      for r := 0 to |rows|
        invariant seen == Flatten(rows[..r])
        invariant hits == (if FiredByPlayer(m) then Struck(m, seen, hit) else [])
      {
        var enemyRow := rows[r];
        var rowHits := RowHits(m, enemyRow, hit);
        StruckRowsStep(m, rows, r, hit);
        FlattenStep(rows, r);
        seen := seen + enemyRow;
        hits := hits + rowHits;
      }
      assert rows[..|rows|] == rows;
    }

    /**
     * One missile's pass over the divers: the divers it hits when fired by
     * the player, and the divers it marks for removal (those, and any diver
     * below the screen).
     */
    method DiverHits(m: Missile, hit: Overlap) returns (struck: seq<Enemy>, marked: seq<Enemy>)
      ensures struck == (if FiredByPlayer(m) then Struck(m, divingEnemies, hit) else [])
      ensures marked == Marked(m, divingEnemies, hit)
    {
      var divers := divingEnemies;
      struck, marked := [], [];
      for k := 0 to |divers|
        invariant struck == (if FiredByPlayer(m) then Struck(m, divers[..k], hit) else [])
        invariant marked == Marked(m, divers[..k], hit)
      {
        var diver := divers[k];
        StruckStep(m, divers, k, hit);
        MarkedStep(m, divers, k, hit);
        if m.CollidesWith(EnemySprite(diver), hit) && FiredByPlayer(m) {
          struck := struck + [diver];
          marked := marked + [diver];
        } else if diver.y > ScreenHeight {
          marked := marked + [diver];
        }
      }
      assert divers[..|divers|] == divers;
    }

    /**
     * One missile's turn in update's loop: the formation enemies and the
     * divers it hits, the divers its pass marks, whether it hits the
     * player, and whether it is spent.
     */
    method ScanMissile(m: Missile, hit: Overlap) returns (turn: Tally)
      ensures turn == Turn(m, Flatten(enemies), divingEnemies, player, hit)
    {
      var hits := FormationHits(m, hit);
      ghost var formation := Flatten(enemies);
      assert hits == (if FiredByPlayer(m) then Struck(m, formation, hit) else []);
      var struck, marked := DiverHits(m, hit);
      var hurts := m.CollidesWith(PlayerSprite(player), hit) && FiredByEnemy(m);
      var used := hits != [] || struck != [] || hurts;
      turn := Tally(hits, |struck|, if hurts then 1 else 0, if used then [m] else [], marked);
    }

    /**
     * update's loop over the missiles, on the moved positions: each
     * missile against every formation enemy row by row, every diver and
     * the player. It yields the points scored, the lives lost to enemy
     * missiles, and the missiles, formation enemies and divers marked for
     * removal. Nothing changes.
     */
    method ScanMissiles(hit: Overlap) returns (points: nat, tally: Tally)
      ensures tally == Total(Turns(missiles, Flatten(enemies), divingEnemies, player, hit))
      ensures points == 10 * |tally.kills| + 20 * tally.diverHits
    {
      points := 0;
      tally := Tally([], 0, 0, [], []);
      var ms, divers, p := missiles, divingEnemies, player;
      ghost var formation := Flatten(enemies);
      assert forall e :: e in formation ==> allocated(e) by {
        FlattenMembers(enemies);
      }
      ghost var turns := Turns(ms, formation, divers, p, hit);
      forall j | 0 <= j < |ms| ensures turns[j] == old(Turn(ms[j], formation, divers, p, hit)) {
        TurnsAt(ms, formation, divers, p, hit, j);
      }
      for i := 0 to |ms|
        invariant forall e :: e in formation ==> old(allocated(e))
        invariant tally == Total(turns[..i])
        invariant points == 10 * |tally.kills| + 20 * tally.diverHits
      {
        var turn := ScanMissile(ms[i], hit);
        TurnFramed(ms[i], formation, divers, p, hit);
        TotalStep(turns, i);
        points := points + 10 * |turn.kills| + 20 * turn.diverHits;
        tally := Then(tally, turn);
      }
      assert turns[..|ms|] == turns;
    }

    /**
     * update's loop over the divers after the missile scan: the lives lost
     * to divers touching the player, and the divers that touch the player
     * or are below the screen.
     */
    method ScanDivers(hit: Overlap) returns (contacts: nat, diversToRemove: seq<Enemy>)
      ensures contacts == ContactLosses(divingEnemies, player, hit)
      ensures diversToRemove == ContactMarked(divingEnemies, player, hit)
    {
      contacts, diversToRemove := 0, [];
      var divers := divingEnemies;
      for k := 0 to |divers|
        invariant contacts == ContactLosses(divers[..k], player, hit)
        invariant diversToRemove == ContactMarked(divers[..k], player, hit)
      {
        var diver := divers[k];
        ContactStep(divers, k, player, hit);
        if player.CollidesWith(EnemySprite(diver), hit) {
          diversToRemove := diversToRemove + [diver];
          contacts := contacts + 1;
        } else if diver.y > ScreenHeight {
          diversToRemove := diversToRemove + [diver];
        }
      }
      assert divers[..|divers|] == divers;
    }

    /**
     * A replacement for oldEnemy, with its row, column and colour, entering
     * from the top edge at oldEnemy's x. It is appended to the first row,
     * whatever its row tag.
     */
    method CreateNewEnemyAtTop(oldEnemy: Enemy)
      requires |enemies| > 0
      modifies this`enemies
      ensures |enemies| == |old(enemies)| && |enemies[0]| == |old(enemies[0])| + 1
      ensures var e := enemies[0][|old(enemies[0])|];
        && enemies == old(enemies)[0 := old(enemies[0]) + [e]]
        && fresh(e) && Replaces(e, oldEnemy)
    {
      var column := oldEnemy.column;
      var row := oldEnemy.row;
      var color := oldEnemy.color;
      var newEnemy := new Enemy(color, row, column);
      newEnemy.SetSpawnPosition(oldEnemy.x);
      newEnemy.StartMovingDown(row);
      var firstRow := enemies[0];
      enemies := enemies[0 := firstRow + [newEnemy]];
    }

    /**
     * update's spawn loop: one draw per entry of kills, in order; each entry
     * whose draw is below RespawnProbability gets a replacement at the end
     * of the first row.
     */
    method SpawnReplacements(kills: seq<Enemy>, draws: nat -> real) returns (ghost spawned: seq<Enemy>)
      requires |enemies| > 0
      modifies this`enemies
      ensures |enemies| == |old(enemies)| && forall r :: 1 <= r < |enemies| ==> enemies[r] == old(enemies[r])
      ensures enemies[0] == old(enemies[0]) + spawned
      ensures |spawned| == |Rolled(kills, draws)| && Distinct(spawned)
      ensures forall j :: 0 <= j < |spawned| ==> fresh(spawned[j]) && Replaces(spawned[j], Rolled(kills, draws)[j])
    {
      spawned := [];
      for k := 0 to |kills|
        invariant |enemies| == |old(enemies)| && forall r :: 1 <= r < |enemies| ==> enemies[r] == old(enemies[r])
        invariant enemies[0] == old(enemies[0]) + spawned && Distinct(spawned)
        invariant |spawned| == |Rolled(kills[..k], draws)|
        invariant forall j :: 0 <= j < |spawned| ==> fresh(spawned[j]) && Replaces(spawned[j], Rolled(kills[..k], draws)[j])
      {
        RolledStep(kills, k, draws);
        ghost var rolled := Rolled(kills[..k], draws);
        if draws(k) < RespawnProbability {
          label before:
          CreateNewEnemyAtTop(kills[k]);
          var e := enemies[0][|enemies[0]| - 1];
          ReplacesFramed@before(spawned, rolled);
          spawned := spawned + [e];
          assert Rolled(kills[..k + 1], draws) == rolled + [kills[k]];
        }
      }
      assert kills[..|kills|] == kills;
    }

    /** One of update's row sweeps: the entries of gone leave every formation row. */
    method RemoveFromRows(gone: seq<Enemy>)
      modifies this`enemies
      ensures |enemies| == |old(enemies)|
      ensures forall r :: 0 <= r < |enemies| ==> enemies[r] == RemoveAll(old(enemies[r]), gone)
    {
      for r := 0 to |enemies|
        invariant |enemies| == |old(enemies)|
        invariant forall i :: 0 <= i < r ==> enemies[i] == RemoveAll(old(enemies[i]), gone)
        invariant forall i :: r <= i < |enemies| ==> enemies[i] == old(enemies[i])
      {
        enemies := enemies[r := RemoveAll(enemies[r], gone)];
      }
    }

    /**
     * update's sweep, after the scans: replacements are rolled for
     * enemiesToRemove and appended to the first row; diversToRemove leaves
     * the divers and then every row; missilesToRemove leaves the missiles;
     * enemiesToRemove leaves every row. The replacements come out as
     * spawned.
     */
    method Sweep(diversToRemove: seq<Enemy>, missilesToRemove: seq<Missile>, enemiesToRemove: seq<Enemy>, spawnDraws: nat -> real)
      returns (ghost spawned: seq<Enemy>)
      requires |enemies| > 0
      modifies this`enemies, this`divingEnemies, this`missiles
      ensures divingEnemies == RemoveAll(old(divingEnemies), diversToRemove)
      ensures missiles == RemoveAll(old(missiles), missilesToRemove)
      ensures |enemies| == |old(enemies)|
      ensures enemies[0] == RemoveAll(old(enemies[0]), diversToRemove + enemiesToRemove) + spawned
      ensures forall r :: 1 <= r < |enemies| ==> enemies[r] == RemoveAll(old(enemies[r]), diversToRemove + enemiesToRemove)
      ensures |spawned| == |Rolled(enemiesToRemove, spawnDraws)| && Distinct(spawned)
      ensures forall j :: 0 <= j < |spawned| ==> fresh(spawned[j]) && Replaces(spawned[j], Rolled(enemiesToRemove, spawnDraws)[j])
    {
      ghost var rows := enemies;
      ghost var rolled := Rolled(enemiesToRemove, spawnDraws);
      spawned := SpawnReplacements(enemiesToRemove, spawnDraws);
      assert forall x :: x in spawned ==> x !in diversToRemove + enemiesToRemove;
      label spawn:

      divingEnemies := RemoveAll(divingEnemies, diversToRemove);
      RemoveFromRows(diversToRemove);
      missiles := RemoveAll(missiles, missilesToRemove);
      RemoveFromRows(enemiesToRemove);

      ReplacesFramed@spawn(spawned, rolled);
      SweepShape(rows, spawned, diversToRemove, enemiesToRemove, enemies);
    }

    /**
     * When every formation row is empty, one more fleet is counted as
     * destroyed and a new fleet is appended after the empty rows; otherwise
     * nothing changes.
     */
    method CheckAndSpawnNewFleet()
      requires DistinctRows(enemies)
      modifies this`enemies, this`fleetsDestroyed
      ensures DistinctRows(enemies)
      ensures AllEmpty(old(enemies)) ==>
        && fleetsDestroyed == old(fleetsDestroyed) + 1
        && |enemies| == |old(enemies)| + FleetRows && enemies[..|old(enemies)|] == old(enemies)
        && IsFleet(enemies[|old(enemies)|..])
      ensures !AllEmpty(old(enemies)) ==> enemies == old(enemies) && fleetsDestroyed == old(fleetsDestroyed)
      ensures forall e :: e in Members(enemies) ==> e in Members(old(enemies)) || fresh(e)
    {
      var allEnemiesRemoved := true;
      for r := 0 to |enemies|
        invariant AllEmpty(enemies[..r])
      {
        if enemies[r] != [] {
          allEnemiesRemoved := false;
          break;
        }
      }
      if allEnemiesRemoved {
        assert enemies[..|enemies|] == enemies;
        fleetsDestroyed := fleetsDestroyed + 1;
        ghost var before := enemies;
        CreateEnemyFleet();
        assert enemies == before + enemies[|before|..];
        DistinctRowsConcat(before, enemies[|before|..]);
      }
    }

    /**
     * update's two scans: the points earned (10 per formation hit, 20 per
     * diver hit), the lives lost (one per enemy missile and one per diver
     * touching the player), and what the sweep removes. Nothing changes.
     */
    method ScanHits(hit: Overlap) returns (points: nat, lost: nat, kills: seq<Enemy>, diversToRemove: seq<Enemy>, missilesToRemove: seq<Missile>)
      ensures points == old(ScoreGain(missiles, Flatten(enemies), divingEnemies, hit))
      ensures lost == old(MissileLosses(missiles, player, hit) + ContactLosses(divingEnemies, player, hit))
      ensures kills == old(FormationKills(missiles, Flatten(enemies), hit))
      ensures diversToRemove == old(MarkedAll(missiles, divingEnemies, hit) + ContactMarked(divingEnemies, player, hit))
      ensures missilesToRemove == old(SpentMissiles(missiles, Flatten(enemies), divingEnemies, player, hit))
    {
      var ms, divers := missiles, divingEnemies;
      ghost var formation := Flatten(enemies);
      assert forall e :: e in formation ==> allocated(e) by {
        FlattenMembers(enemies);
      }
      TotalParts(ms, formation, divers, player, hit);
      var tally;
      points, tally := ScanMissiles(hit);
      TotalFramed(ms, formation, divers, player, hit);
      var contacts, contactMarked := ScanDivers(hit);
      ContactFramed(divers, player, hit);
      lost := tally.losses + contacts;
      kills, diversToRemove, missilesToRemove := tally.kills, tally.marked + contactMarked, tally.spent;
    }

    /**
     * update after the scoring: the sweep with its respawns, then a new
     * fleet when the formation is empty. The formation stays free of
     * repetitions, and every surviving diver stays in it.
     */
    method SweepAndRespawn(diversToRemove: seq<Enemy>, missilesToRemove: seq<Missile>, kills: seq<Enemy>, spawnDraws: nat -> real)
      requires fleetsDestroyed >= 0 && |enemies| == FleetRows * (fleetsDestroyed + 1) && DistinctRows(enemies) && Distinct(missiles)
      requires forall d :: d in divingEnemies ==> d in Members(enemies)
      requires forall d :: d in divingEnemies && d in kills ==> d in diversToRemove
      modifies this`enemies, this`divingEnemies, this`missiles, this`fleetsDestroyed
      ensures |enemies| == FleetRows * (fleetsDestroyed + 1) && DistinctRows(enemies) && Distinct(missiles)
      ensures forall d :: d in divingEnemies ==> d in Members(enemies)
      ensures missiles == RemoveAll(old(missiles), missilesToRemove)
      ensures divingEnemies == RemoveAll(old(divingEnemies), diversToRemove)
      ensures |enemies| >= |old(enemies)|
      ensures Pruned(enemies[..|old(enemies)|], old(enemies), diversToRemove + kills, Rolled(kills, spawnDraws))
      ensures AllEmpty(enemies[..|old(enemies)|]) ==>
        fleetsDestroyed == old(fleetsDestroyed) + 1 && |enemies| == |old(enemies)| + FleetRows && IsFleet(enemies[|old(enemies)|..])
      ensures !AllEmpty(enemies[..|old(enemies)|]) ==>
        |enemies| == |old(enemies)| && fleetsDestroyed == old(fleetsDestroyed)
      ensures forall e :: e in Members(enemies) ==> e in Members(old(enemies)) || fresh(e)
    {
      ghost var rows, divers, ms := enemies, divingEnemies, missiles;
      ghost var spawned := Sweep(diversToRemove, missilesToRemove, kills, spawnDraws);
      ghost var rolled := Rolled(kills, spawnDraws);
      ghost var swept := enemies;
      assert forall x :: x in spawned ==> x !in Members(rows);
      SweptRowsDistinct(rows, spawned, diversToRemove + kills, swept);
      RemoveAllDistinct(ms, missilesToRemove);
      forall r, x | 0 <= r < |rows| && x in RemoveAll(rows[r], diversToRemove + kills) ensures x in swept[r] {
        if r == 0 {
          assert x in swept[0][..|RemoveAll(rows[0], diversToRemove + kills)|];
        }
      }
      DiversStayInRows(rows, divers, diversToRemove, kills, swept);
      label sweep:
      CheckAndSpawnNewFleet();
      ReplacesFramed@sweep(spawned, rolled);
      assert enemies[..|rows|] == swept;
      forall d | d in divingEnemies ensures d in Members(enemies) {
        var r, k :| 0 <= r < |swept| && 0 <= k < |swept[r]| && swept[r][k] == d;
        assert enemies[r][k] == d;
      }
      SweptMembers(rows, spawned, diversToRemove + kills, swept);
    }

    /** The sweep with its respawns, keeping the frame's bookkeeping. */
    method SweepKeepingValid(diversToRemove: seq<Enemy>, missilesToRemove: seq<Missile>, kills: seq<Enemy>, spawnDraws: nat -> real)
      requires Valid()
      requires forall d :: d in divingEnemies && d in kills ==> d in diversToRemove
      modifies this`enemies, this`divingEnemies, this`missiles, this`fleetsDestroyed
      ensures Valid()
      ensures missiles == RemoveAll(old(missiles), missilesToRemove)
      ensures divingEnemies == RemoveAll(old(divingEnemies), diversToRemove)
      ensures |enemies| >= |old(enemies)|
      ensures Pruned(enemies[..|old(enemies)|], old(enemies), diversToRemove + kills, Rolled(kills, spawnDraws))
      ensures AllEmpty(enemies[..|old(enemies)|]) ==>
        fleetsDestroyed == old(fleetsDestroyed) + 1 && |enemies| == |old(enemies)| + FleetRows && IsFleet(enemies[|old(enemies)|..])
      ensures !AllEmpty(enemies[..|old(enemies)|]) ==>
        |enemies| == |old(enemies)| && fleetsDestroyed == old(fleetsDestroyed)
      ensures forall e :: e in Members(enemies) ==> e in Members(old(enemies)) || fresh(e)
    {
      SweepAndRespawn(diversToRemove, missilesToRemove, kills, spawnDraws);
      ValidAfterFrame(this);
    }

    /** update's counters: points added to the score, lost lives taken, game over once none are left. */
    method Charge(points: nat, lost: nat)
      requires Valid()
      modifies this`score, this`lives, this`gameOver
      ensures Valid()
      ensures score == old(score) + points && lives == old(lives) - lost
      ensures gameOver == (old(gameOver) || (lost > 0 && lives <= 0))
    {
      score := score + points;
      lives := lives - lost;
      if lost > 0 && lives <= 0 {
        gameOver := true;
      }
    }

    /**
     * update after the movement pass: scoring, then the sweep with its
     * respawns, then a new fleet when the formation is empty. The frame's
     * bookkeeping holds again afterwards.
     */
    method Resolve(hit: Overlap, spawnDraws: nat -> real)
      requires Valid()
      modifies this`score, this`lives, this`gameOver, this`enemies, this`divingEnemies, this`missiles, this`fleetsDestroyed
      ensures Valid()
      ensures Resolved(this, hit, spawnDraws)
      ensures gameOver == (old(gameOver) || (lives < old(lives) && lives <= 0))
      ensures AllEmpty(enemies[..|old(enemies)|]) ==>
        fleetsDestroyed == old(fleetsDestroyed) + 1 && IsFleet(enemies[|old(enemies)|..])
      ensures !AllEmpty(enemies[..|old(enemies)|]) ==>
        |enemies| == |old(enemies)| && fleetsDestroyed == old(fleetsDestroyed)
      ensures forall e :: e in Members(enemies) ==> e in Members(old(enemies)) || fresh(e)
    {
      KilledDiversAreMarked(missiles, Flatten(enemies), divingEnemies, hit);
      var points, lost, kills, diversToRemove, missilesToRemove := ScanHits(hit);
      Charge(points, lost);
      SweepKeepingValid(diversToRemove, missilesToRemove, kills, spawnDraws);
    }

    /**
     * Resolve with its equations read in the state after it: the scans'
     * findings are over missiles, enemies and a player it does not change.
     */
    method Settle(hit: Overlap, spawnDraws: nat -> real)
      requires Valid()
      modifies this`score, this`lives, this`gameOver, this`enemies, this`divingEnemies, this`missiles, this`fleetsDestroyed
      ensures Valid()
      ensures Settled(this, old(missiles), old(enemies), old(divingEnemies), old(score), old(lives), hit, spawnDraws)
      ensures gameOver == (old(gameOver) || (lives < old(lives) && lives <= 0))
      ensures AllEmpty(enemies[..|old(enemies)|]) ==>
        fleetsDestroyed == old(fleetsDestroyed) + 1 && IsFleet(enemies[|old(enemies)|..])
      ensures !AllEmpty(enemies[..|old(enemies)|]) ==>
        |enemies| == |old(enemies)| && fleetsDestroyed == old(fleetsDestroyed)
      ensures forall e :: e in Members(enemies) ==> e in Members(old(enemies)) || fresh(e)
      ensures direction == old(direction) && unchanged(Members(old(enemies))) && unchanged(old(missiles))
    {
      ghost var ms, rows, ds := missiles, enemies, divingEnemies;
      Resolve(hit, spawnDraws);
      SettledAfterResolve(this, ms, rows, ds, hit, spawnDraws);
    }

    /**
     * update: the movement pass over the formation and the missiles, then
     * scoring, the sweep and the respawn check. The old enemies and missiles
     * keep the positions the movement pass gave them, and the scans are read
     * at those positions. The score never falls, lives
     * never rise, no diver or missile appears, and game over, once
     * signalled, stays signalled; it is signalled whenever lives were lost
     * and none are left.
     */
    method Update(aim: Aim, hit: Overlap, spawnDraws: nat -> real)
      requires Valid()
      modifies this, Members(enemies)`x, Members(enemies)`y, Members(enemies)`movingDown, missiles`x, missiles`y
      ensures Valid()
      ensures score >= old(score) && lives <= old(lives) && fleetsDestroyed >= old(fleetsDestroyed)
      ensures (old(gameOver) ==> gameOver) && (lives < old(lives) && lives <= 0 ==> gameOver)
      ensures forall m :: m in missiles ==> m in old(missiles)
      ensures forall d :: d in divingEnemies ==> d in old(divingEnemies)
      ensures forall e :: e in Members(enemies) ==> e in Members(old(enemies)) || fresh(e)
      ensures Marched(old(RowsSnapshot(enemies)), old(direction), old(enemies), direction, player, aim)
      ensures Strode(old(Positions(missiles)), old(missiles))
      ensures Settled(this, old(missiles), old(enemies), old(divingEnemies), old(score), old(lives), hit, spawnDraws)
      ensures gameOver == (old(gameOver) || (lives < old(lives) && lives <= 0))
      ensures AllEmpty(enemies[..|old(enemies)|]) ==>
        fleetsDestroyed == old(fleetsDestroyed) + 1 && IsFleet(enemies[|old(enemies)|..])
      ensures !AllEmpty(enemies[..|old(enemies)|]) ==>
        |enemies| == |old(enemies)| && fleetsDestroyed == old(fleetsDestroyed)
    {
      Move(aim);
      Settle(hit, spawnDraws);
    }

    /**
     * update's movement pass: every missile one stride along its
     * direction, and the formation marched as MarchRows says. The two
     * write disjoint objects and neither reads what the other writes, so
     * the missiles go first here. Only positions, entering flags and the
     * shared direction change, so the frame's bookkeeping still holds.
     */
    method Move(aim: Aim)
      requires Valid()
      modifies this`direction, Members(enemies)`x, Members(enemies)`y, Members(enemies)`movingDown, missiles`x, missiles`y
      ensures Valid()
      ensures enemies == old(enemies) && divingEnemies == old(divingEnemies) && missiles == old(missiles)
      ensures score == old(score) && lives == old(lives) && fleetsDestroyed == old(fleetsDestroyed) && gameOver == old(gameOver)
      ensures MarchedFrom(old(RowsSnapshot(enemies)), old(direction), this, aim)
      ensures Strode(old(Positions(missiles)), missiles)
    {
      MoveMissiles();
      assert RowsSnapshot(enemies) == old(RowsSnapshot(enemies));
      MarchFormation(aim);
    }

    /** The formation's movement pass, keeping the frame's bookkeeping. */
    method MarchFormation(aim: Aim)
      requires Valid()
      modifies this`direction, Members(enemies)`x, Members(enemies)`y, Members(enemies)`movingDown
      ensures Valid()
      ensures enemies == old(enemies) && divingEnemies == old(divingEnemies) && missiles == old(missiles)
      ensures MarchedFrom(old(RowsSnapshot(enemies)), old(direction), this, aim)
    {
      MoveFormation(aim);
      ValidAfterMove(this);
    }

    /**
     * One frame of the game loop: update, a possible dive, the divers'
     * shots, then the player moved 0.25 right and 0.25 left as the arrow
     * keys held down say.
     */
    method Tick(aim: Aim, hit: Overlap, spawnDraws: nat -> real, diveDraw: real, nextInt: nat -> nat,
                fireDraws: nat -> real, right: bool, left: bool)
      requires Valid()
      requires forall n: nat :: n > 0 ==> nextInt(n) < n
      modifies this, Members(enemies)`x, Members(enemies)`y, Members(enemies)`movingDown, Members(enemies)`diving
      modifies missiles`x, missiles`y, player
      ensures Valid()
      ensures score >= old(score) && lives <= old(lives) && fleetsDestroyed >= old(fleetsDestroyed)
      ensures (old(gameOver) ==> gameOver) && (lives < old(lives) && lives <= 0 ==> gameOver)
      ensures player.x == Clamp(Clamp(old(player.x) + (if right then 0.25 else 0.0)) - (if left then 0.25 else 0.0))
      ensures player.y == old(player.y)
    {
      Advance(aim, hit, spawnDraws, diveDraw, nextInt, fireDraws);
      Steer(right, left);
    }

    /** The game's share of a frame: update, then the enemies' turn, keeping the invariant and the counters. */
    method Advance(aim: Aim, hit: Overlap, spawnDraws: nat -> real, diveDraw: real, nextInt: nat -> nat, fireDraws: nat -> real)
      requires Valid()
      requires forall n: nat :: n > 0 ==> nextInt(n) < n
      modifies this, Members(enemies)`x, Members(enemies)`y, Members(enemies)`movingDown, Members(enemies)`diving, missiles`x, missiles`y
      ensures Valid()
      ensures score >= old(score) && lives <= old(lives) && fleetsDestroyed >= old(fleetsDestroyed)
      ensures (old(gameOver) ==> gameOver) && (lives < old(lives) && lives <= 0 ==> gameOver)
    {
      Update(aim, hit, spawnDraws);
      Attack(diveDraw, nextInt, fireDraws, aim);
    }

    /** The enemies' turn of a frame: a possible dive, then the divers' shots. */
    method Attack(diveDraw: real, nextInt: nat -> nat, fireDraws: nat -> real, aim: Aim)
      requires Valid()
      requires forall n: nat :: n > 0 ==> nextInt(n) < n
      modifies this`divingEnemies, this`missiles, Members(enemies)`diving
      ensures Valid()
      ensures score == old(score) && lives == old(lives) && fleetsDestroyed == old(fleetsDestroyed) && gameOver == old(gameOver)
      ensures enemies == old(enemies)
      ensures var c := Candidates(enemies);
        if diveDraw < DiveProbability && c != [] then
          && divingEnemies == old(divingEnemies) + [c[nextInt(|c|)]]
          && c[nextInt(|c|)].diving
          && forall e :: e in Members(enemies) && e != c[nextInt(|c|)] ==> e.diving == old(e.diving)
        else
          divingEnemies == old(divingEnemies) && forall e :: e in Members(enemies) ==> e.diving == old(e.diving)
      ensures |missiles| >= |old(missiles)| && missiles[..|old(missiles)|] == old(missiles)
      ensures ShotBy(missiles[|old(missiles)|..], Firing(divingEnemies, fireDraws))
      ensures forall j :: |old(missiles)| <= j < |missiles| ==> fresh(missiles[j])
      ensures Aimed(missiles[|old(missiles)|..], Firing(divingEnemies, fireDraws), player, aim)
    {
      MaybeTriggerDive(diveDraw, nextInt);
      EnemyShootMissile(fireDraws, aim);
    }

    /** The player's turn of a frame: 0.25 right, then 0.25 left, as the arrow keys held down say. */
    method Steer(right: bool, left: bool)
      requires Valid()
      modifies player
      ensures Valid()
      ensures player.x == Clamp(Clamp(old(player.x) + (if right then 0.25 else 0.0)) - (if left then 0.25 else 0.0))
      ensures player.y == old(player.y)
    {
      if right {
        player.Move(0.25, 0.0);
      }
      if left {
        player.Move(-0.25, 0.0);
      }
    }

    /**
     * The dive candidates: the first enemy of every non-empty row and the
     * last one when the row holds more than one, in row order.
     */
    method GetDivingCandidates() returns (candidates: seq<Enemy>)
      ensures candidates == Candidates(enemies)
    {
      candidates := [];
      for r := 0 to |enemies|
        invariant candidates == Candidates(enemies[..r])
      {
        var enemyRow := enemies[r];
        if enemyRow != [] {
          candidates := candidates + [enemyRow[0]];
          if |enemyRow| > 1 {
            candidates := candidates + [enemyRow[|enemyRow| - 1]];
          }
        }
        assert enemies[..r + 1][..r] == enemies[..r];
      }
      assert enemies[..|enemies|] == enemies;
    }

    /**
     * With probability DiveProbability (draw), one candidate, picked by
     * nextInt, is set diving and appended to the divers; it is not taken
     * out of its row, and may already be a diver.
     */
    method MaybeTriggerDive(draw: real, nextInt: nat -> nat)
      requires Valid()
      requires forall n: nat :: n > 0 ==> nextInt(n) < n
      modifies this`divingEnemies, Members(enemies)`diving
      ensures Valid()
      ensures var c := Candidates(enemies);
        if draw < DiveProbability && c != [] then
          && divingEnemies == old(divingEnemies) + [c[nextInt(|c|)]]
          && c[nextInt(|c|)].diving
          && forall e :: e in Members(enemies) && e != c[nextInt(|c|)] ==> e.diving == old(e.diving)
        else
          divingEnemies == old(divingEnemies) && forall e :: e in Members(enemies) ==> e.diving == old(e.diving)
    {
      if draw < DiveProbability {
        var candidates := GetDivingCandidates();
        if candidates != [] {
          var diver := candidates[nextInt(|candidates|)];
          CandidatesAreEnds(enemies, diver);
          var r :| 0 <= r < |enemies| && enemies[r] != [] && (diver == enemies[r][0] || diver == enemies[r][|enemies[r]| - 1]);
          assert diver in Members(enemies);
          diver.Dive();
          divingEnemies := divingEnemies + [diver];
        }
      }
    }

    /**
     * Each diver in turn fires when its draw is below FireProbability and
     * it is more than 200 pixels above the bottom; the new missiles are
     * appended in diver order.
     */
    method EnemyShootMissile(draws: nat -> real, aim: Aim)
      requires Distinct(missiles)
      modifies this`missiles
      ensures Distinct(missiles)
      ensures |missiles| >= |old(missiles)| && missiles[..|old(missiles)|] == old(missiles)
      ensures ShotBy(missiles[|old(missiles)|..], Firing(divingEnemies, draws))
      ensures forall j :: |old(missiles)| <= j < |missiles| ==> fresh(missiles[j])
      ensures Aimed(missiles[|old(missiles)|..], Firing(divingEnemies, draws), player, aim)
    {
      var fired := Volley(divingEnemies, draws, aim);
      assert forall j :: 0 <= j < |fired| ==> fired[j] !in missiles;
      missiles := missiles + fired;
      assert missiles[|old(missiles)|..] == fired;
    }

    /**
     * The loop of enemyShootMissile: the missiles the divers fire, one per
     * diver whose draw and height allow it, in diver order.
     */
    method Volley(divers: seq<Enemy>, draws: nat -> real, aim: Aim) returns (fired: seq<Missile>)
      ensures ShotBy(fired, old(Firing(divers, draws))) && Distinct(fired)
      ensures forall j :: 0 <= j < |fired| ==> fresh(fired[j])
      ensures forall j :: 0 <= j < |fired| ==> AimedFrom(fired[j], old(Firing(divers, draws))[j], player, aim)
    {
      fired := [];
      ghost var shooters: seq<Enemy> := [];
      for k := 0 to |divers|
        invariant shooters == old(Firing(divers[..k], draws))
        invariant ShotBy(fired, shooters) && Distinct(fired)
        invariant forall j :: 0 <= j < |fired| ==> fresh(fired[j])
        invariant forall j :: 0 <= j < |fired| ==> AimedFrom(fired[j], shooters[j], player, aim)
      {
        var enemy := divers[k];
        FiringStepBefore(divers, k, draws);
        fired, shooters := FireNext(fired, shooters, enemy, draws(k), aim);
        assert enemy.y == old(enemy.y);
      }
      assert divers[..|divers|] == divers;
    }

    /** One diver's turn of the volley: its shot, if it fires, joins the end of the list. */
    method FireNext(fired: seq<Missile>, ghost shooters: seq<Enemy>, enemy: Enemy, draw: real, aim: Aim)
      returns (more: seq<Missile>, ghost moreShooters: seq<Enemy>)
      requires ShotBy(fired, shooters) && Distinct(fired)
      requires forall j :: 0 <= j < |fired| ==> AimedFrom(fired[j], shooters[j], player, aim)
      ensures moreShooters == shooters + (if Fires(draw, enemy.y) then [enemy] else [])
      ensures ShotBy(more, moreShooters) && Distinct(more)
      ensures |more| >= |fired| && more[..|fired|] == fired
      ensures forall j :: |fired| <= j < |more| ==> fresh(more[j])
      ensures forall j :: 0 <= j < |more| ==> AimedFrom(more[j], moreShooters[j], player, aim)
    {
      var missile := FireIfDrawn(enemy, draw, aim);
      more, moreShooters := fired, shooters;
      if missile != null {
        more := fired + [missile];
        moreShooters := shooters + [enemy];
      }
    }

    /**
     * The body of enemyShootMissile's loop for one diver: the draw decides
     * whether the diver tries, and the diver's height whether it can.
     */
    method FireIfDrawn(enemy: Enemy, draw: real, aim: Aim) returns (m: Missile?)
      ensures m != null <==> Fires(draw, enemy.y)
      ensures m != null ==> fresh(m) && AimedFrom(m, enemy, player, aim)
    {
      m := null;
      if draw < FireProbability {
        m := enemy.ShootTowardsPlayer(player.x, player.y, aim);
      }
    }

    /**
     * The space-bar handler: the player's missile, sent straight up at
     * PlayerMissileSpeed, is appended to the missiles.
     */
    method PlayerShoots()
      requires Valid()
      modifies this`missiles
      ensures Valid()
      ensures |missiles| == |old(missiles)| + 1 && missiles[..|old(missiles)|] == old(missiles)
      ensures var m := missiles[|old(missiles)|];
        && fresh(m) && m.shooter == PlayerSprite(player)
        && m.directionX == 0.0 && m.directionY == -1.0 && m.speed == PlayerMissileSpeed
        && m.x + MissileWidth / 2.0 == player.x + PlayerWidth / 2.0 && m.y + MissileHeight == player.y
    {
      var missile := player.Shoot();
      missile.SetDirection(0.0, -1.0);
      missile.SetSpeed(PlayerMissileSpeed);
      missiles := missiles + [missile];
    }
  }
}
