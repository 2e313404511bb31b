/**
 * What one call of Enemy.movePattern does to an enemy, as a function of the
 * enemy's layout fields and the formation's shared left/right direction,
 * and what the per-frame loop over all formation rows does (each enemy
 * moved once, in row order, the shared direction threaded from one enemy to
 * the next).
 */
module Motion {
  import opened Geometry
  import opened Fleet

  /** The fields movePattern reads and writes, and the row tag it reads. */
  datatype EnemyState = EnemyState(x: real, y: real, diving: bool, movingDown: bool, row: int)

  /** The shared direction of the formation is +1 (right) or -1 (left). */
  predicate IsDirection(d: int) {
    d == -1 || d == 1
  }

  /** Screen height left below an enemy's bottom edge. */
  function DistanceFromBottom(y: real): real {
    ScreenHeight - y - EnemySize
  }

  /** A diver closer than this to the bottom neither homes nor fires. */
  const HomingFloor: real := 200.0

  /** Horizontal displacement of a formation enemy per frame. */
  function MarchDelta(direction: int): real {
    direction as real * EnemySpeed / 1.5
  }

  /** The formation direction after an enemy reached newX. */
  function Bounce(newX: real, direction: int): int {
    if newX > ScreenWidth - EnemySize then -1
    else if newX < 0.0 then 1
    else direction
  }

  /**
   * One movePattern call: an entering enemy falls by EnemySpeed until it
   * reaches its row's slot; a diver homes towards the player along aim's
   * vector, or falls straight down once near the bottom; any other enemy
   * marches sideways and may turn the shared direction round.
   * Returns the enemy's new state and the new shared direction.
   */
  function Step(s: EnemyState, direction: int, playerX: real, playerY: real, aim: Aim): (r: (EnemyState, int))
    ensures r.0.row == s.row && r.0.diving == s.diving
    ensures r.0.movingDown ==> s.movingDown
    ensures s.movingDown || s.diving ==> r.1 == direction
    ensures IsDirection(direction) ==> IsDirection(r.1)
  {
    if s.movingDown then
      var y := s.y + EnemySpeed;
      (s.(y := y, movingDown := !(y >= SlotY(s.row))), direction)
    else if s.diving then
      if DistanceFromBottom(s.y) > HomingFloor then
        var u := aim(playerX - s.x, playerY - s.y);
        (s.(x := s.x + u.0 * (EnemySpeed / 1.5), y := s.y + u.1 * (EnemySpeed / 1.5)), direction)
      else
        (s.(y := s.y + EnemySpeed), direction)
    else
      var x := s.x + MarchDelta(direction);
      (s.(x := x), Bounce(x, direction))
  }

  /**
   * Entering takes precedence over diving and marching: y grows by exactly
   * EnemySpeed, x stays, and movingDown is cleared once y reaches the slot.
   */
  lemma EnteringStep(s: EnemyState, direction: int, playerX: real, playerY: real, aim: Aim)
    requires s.movingDown
    ensures var r := Step(s, direction, playerX, playerY, aim);
      && r.0.y == s.y + EnemySpeed && r.0.x == s.x && r.1 == direction
      && (r.0.movingDown <==> s.y + EnemySpeed < SlotY(s.row))
  {
  }

  /** A diver near the bottom falls straight down by EnemySpeed. */
  lemma DivingNearBottomStep(s: EnemyState, direction: int, playerX: real, playerY: real, aim: Aim)
    requires !s.movingDown && s.diving && DistanceFromBottom(s.y) <= HomingFloor
    ensures var r := Step(s, direction, playerX, playerY, aim);
      r.0 == s.(y := s.y + EnemySpeed) && r.1 == direction
  {
  }

  /** A formation enemy moves sideways only, by direction * EnemySpeed / 1.5. */
  lemma FormationStep(s: EnemyState, direction: int, playerX: real, playerY: real, aim: Aim)
    requires !s.movingDown && !s.diving
    ensures var r := Step(s, direction, playerX, playerY, aim);
      && r.0 == s.(x := s.x + MarchDelta(direction))
      && (r.0.x > ScreenWidth - EnemySize ==> r.1 == -1)
      && (r.0.x < 0.0 ==> r.1 == 1)
      && (0.0 <= r.0.x <= ScreenWidth - EnemySize ==> r.1 == direction)
  {
  }

  /**
   * movePattern applied to each enemy of a row in turn, every call seeing the
   * direction left by the previous one.
   */
  function March(ss: seq<EnemyState>, direction: int, playerX: real, playerY: real, aim: Aim): (r: (seq<EnemyState>, int))
    ensures |r.0| == |ss|
    ensures forall k :: 0 <= k < |ss| ==> r.0[k].row == ss[k].row && r.0[k].diving == ss[k].diving
    ensures forall k :: 0 <= k < |ss| && r.0[k].movingDown ==> ss[k].movingDown
    ensures IsDirection(direction) ==> IsDirection(r.1)
  {
    if ss == [] then ([], direction)
    else
      var front := March(ss[..|ss| - 1], direction, playerX, playerY, aim);
      var last := Step(ss[|ss| - 1], front.1, playerX, playerY, aim);
      (front.0 + [last.0], last.1)
  }

  /** The per-frame loop over all formation rows, row after row. */
  function MarchRows(rows: seq<seq<EnemyState>>, direction: int, playerX: real, playerY: real, aim: Aim)
    : (r: (seq<seq<EnemyState>>, int))
    ensures |r.0| == |rows|
    ensures forall i :: 0 <= i < |rows| ==> |r.0[i]| == |rows[i]|
    ensures IsDirection(direction) ==> IsDirection(r.1)
  {
    if rows == [] then ([], direction)
    else
      var front := MarchRows(rows[..|rows| - 1], direction, playerX, playerY, aim);
      var last := March(rows[|rows| - 1], front.1, playerX, playerY, aim);
      (front.0 + [last.0], last.1)
  }

  /** The per-frame loop over one more row. */
  lemma MarchRowsStep(rows: seq<seq<EnemyState>>, r: nat, direction: int, playerX: real, playerY: real, aim: Aim)
    requires r < |rows|
    ensures var front := MarchRows(rows[..r], direction, playerX, playerY, aim);
      var last := March(rows[r], front.1, playerX, playerY, aim);
      MarchRows(rows[..r + 1], direction, playerX, playerY, aim) == (front.0 + [last.0], last.1)
  {
    assert rows[..r + 1][..r] == rows[..r];
  }

  /**
   * Entering enemies and divers move the same whatever the shared
   * direction: only marching enemies depend on it.
   */
  lemma {:induction false} MarchNonFormation(ss: seq<EnemyState>, direction: int, playerX: real, playerY: real, aim: Aim, k: int)
    requires 0 <= k < |ss| && (ss[k].movingDown || ss[k].diving)
    ensures March(ss, direction, playerX, playerY, aim).0[k] == Step(ss[k], direction, playerX, playerY, aim).0
  {
    if k < |ss| - 1 {
      MarchNonFormation(ss[..|ss| - 1], direction, playerX, playerY, aim, k);
    }
  }

  /** Every enemy in formation mode whose march keeps it on screen. */
  ghost predicate MarchesInside(ss: seq<EnemyState>, direction: int) {
    forall k :: 0 <= k < |ss| ==>
      !ss[k].movingDown && !ss[k].diving && 0.0 <= ss[k].x + MarchDelta(direction) <= ScreenWidth - EnemySize
  }

  /**
   * Lockstep: when every enemy is marching and none crosses an edge, all of
   * them move by the same displacement and the direction is kept.
   */
  lemma {:induction false} MarchLockstep(ss: seq<EnemyState>, direction: int, playerX: real, playerY: real, aim: Aim)
    requires MarchesInside(ss, direction)
    ensures var r := March(ss, direction, playerX, playerY, aim);
      && r.1 == direction
      && forall k :: 0 <= k < |ss| ==> r.0[k] == ss[k].(x := ss[k].x + MarchDelta(direction))
  {
    if ss != [] {
      MarchLockstep(ss[..|ss| - 1], direction, playerX, playerY, aim);
    }
  }

  /** The lockstep property lifted to the whole formation. */
  lemma {:induction false} MarchRowsLockstep(rows: seq<seq<EnemyState>>, direction: int, playerX: real, playerY: real, aim: Aim)
    requires forall i :: 0 <= i < |rows| ==> MarchesInside(rows[i], direction)
    ensures var r := MarchRows(rows, direction, playerX, playerY, aim);
      && r.1 == direction
      && forall i, k :: 0 <= i < |rows| && 0 <= k < |rows[i]| ==>
           r.0[i][k] == rows[i][k].(x := rows[i][k].x + MarchDelta(direction))
  {
    if rows != [] {
      var init := rows[..|rows| - 1];
      MarchRowsLockstep(init, direction, playerX, playerY, aim);
      MarchLockstep(rows[|rows| - 1], direction, playerX, playerY, aim);
    }
  }

  /**
   * The edge turns everybody: once a marching enemy has crossed the right
   * edge, every marching enemy after it in the same frame moves left.
   */
  lemma TurnAtRightEdge(s: EnemyState, next: EnemyState, direction: int, playerX: real, playerY: real, aim: Aim)
    requires !s.movingDown && !s.diving && s.x + MarchDelta(direction) > ScreenWidth - EnemySize
    requires !next.movingDown && !next.diving
    ensures var d := Step(s, direction, playerX, playerY, aim).1;
      d == -1 && Step(next, d, playerX, playerY, aim).0.x == next.x - EnemySpeed / 1.5
  {
  }
}
