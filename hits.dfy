/**
 * What the collision scan of one frame finds, as functions of the missiles,
 * the formation rows, the divers and the player in their positions after
 * the frame's moves. Score, lives and removals of GameManager.update are
 * stated in these terms.
 *
 * The formation enters as one sequence, Flatten(rows): the enemies row
 * after row, in the order update's nested loops visit them.
 */
module Hits {
  import opened Geometry
  import opened Lists
  import opened Sprites

  /** Missile ownership: `getShooter() instanceof Player` / `instanceof Enemy`. */
  predicate FiredByPlayer(m: Missile) {
    m.shooter.PlayerSprite?
  }

  predicate FiredByEnemy(m: Missile) {
    m.shooter.EnemySprite?
  }

  /** The enemies of es that missile m overlaps, in order, repetitions kept. */
  function Struck(m: Missile, es: seq<Enemy>, hit: Overlap): seq<Enemy>
    reads m, es
  {
    if es == [] then []
    else
      var last := es[|es| - 1];
      Struck(m, es[..|es| - 1], hit) + (if m.CollidesWith(EnemySprite(last), hit) then [last] else [])
  }

  /** Struck lists exactly the enemies of es that m overlaps. */
  lemma {:induction false} StruckMembers(m: Missile, es: seq<Enemy>, hit: Overlap)
    ensures forall e :: e in Struck(m, es, hit) ==> e in es && m.CollidesWith(EnemySprite(e), hit)
    ensures forall e :: e in es && m.CollidesWith(EnemySprite(e), hit) ==> e in Struck(m, es, hit)
  {
    if es != [] {
      var init := es[..|es| - 1];
      StruckMembers(m, init, hit);
      forall e | e in es && m.CollidesWith(EnemySprite(e), hit) ensures e in Struck(m, es, hit) {
        var k :| 0 <= k < |es| && es[k] == e;
        if k < |es| - 1 {
          assert init[k] == e;
        }
      }
    }
  }

  /** Struck over one more enemy. */
  lemma StruckStep(m: Missile, es: seq<Enemy>, k: nat, hit: Overlap)
    requires k < |es|
    ensures Struck(m, es[..k + 1], hit) ==
      Struck(m, es[..k], hit) + (if m.CollidesWith(EnemySprite(es[k]), hit) then [es[k]] else [])
  {
    assert es[..k + 1][..k] == es[..k];
  }

  /** Struck over the formation's first r + 1 rows, given the first r. */
  lemma StruckRowsStep(m: Missile, rows: seq<seq<Enemy>>, r: nat, hit: Overlap)
    requires r < |rows|
    ensures Struck(m, Flatten(rows[..r + 1]), hit) == Struck(m, Flatten(rows[..r]), hit) + Struck(m, rows[r], hit)
  {
    FlattenStep(rows, r);
    StruckAppend(m, Flatten(rows[..r]), rows[r], hit);
  }

  /** Struck distributes over concatenation. */
  lemma {:induction false} StruckAppend(m: Missile, a: seq<Enemy>, b: seq<Enemy>, hit: Overlap)
    ensures Struck(m, a + b, hit) == Struck(m, a, hit) + Struck(m, b, hit)
  {
    if b == [] {
      assert a + b == a;
    } else {
      assert (a + b)[..|a + b| - 1] == a + b[..|b| - 1];
      StruckAppend(m, a, b[..|b| - 1], hit);
    }
  }

  /**
   * The list of formation enemies a frame's scan marks for removal: for
   * each player-fired missile in turn, the formation enemies it overlaps.
   */
  function FormationKills(ms: seq<Missile>, formation: seq<Enemy>, hit: Overlap): seq<Enemy>
    reads ms, formation
  {
    if ms == [] then []
    else
      var m := ms[|ms| - 1];
      FormationKills(ms[..|ms| - 1], formation, hit) + (if FiredByPlayer(m) then Struck(m, formation, hit) else [])
  }

  /** Number of (player-fired missile, diver entry) pairs that overlap. */
  function DiverKills(ms: seq<Missile>, divers: seq<Enemy>, hit: Overlap): nat
    reads ms, divers
  {
    if ms == [] then 0
    else
      var m := ms[|ms| - 1];
      DiverKills(ms[..|ms| - 1], divers, hit) + (if FiredByPlayer(m) then |Struck(m, divers, hit)| else 0)
  }

  /** Points a frame's scan awards: 10 per formation hit, 20 per diver hit. */
  function ScoreGain(ms: seq<Missile>, formation: seq<Enemy>, divers: seq<Enemy>, hit: Overlap): nat
    reads ms, formation, divers
  {
    10 * |FormationKills(ms, formation, hit)| + 20 * DiverKills(ms, divers, hit)
  }

  /** Number of enemy-fired missiles that overlap the player. */
  function MissileLosses(ms: seq<Missile>, p: Player, hit: Overlap): nat
    reads ms, p
  {
    if ms == [] then 0
    else
      var m := ms[|ms| - 1];
      MissileLosses(ms[..|ms| - 1], p, hit) + (if FiredByEnemy(m) && m.CollidesWith(PlayerSprite(p), hit) then 1 else 0)
  }

  /** Number of diver entries that touch the player. */
  function ContactLosses(divers: seq<Enemy>, p: Player, hit: Overlap): nat
    reads divers, p
  {
    if divers == [] then 0
    else
      var d := divers[|divers| - 1];
      ContactLosses(divers[..|divers| - 1], p, hit) + (if p.CollidesWith(EnemySprite(d), hit) then 1 else 0)
  }

  /**
   * A missile is used up when, fired by the player, it overlaps a formation
   * enemy or a diver, or, fired by an enemy, it overlaps the player.
   */
  predicate Spent(m: Missile, formation: seq<Enemy>, divers: seq<Enemy>, p: Player, hit: Overlap)
    reads m, formation, divers, p
  {
    || (FiredByPlayer(m) && (Struck(m, formation, hit) != [] || Struck(m, divers, hit) != []))
    || (FiredByEnemy(m) && m.CollidesWith(PlayerSprite(p), hit))
  }

  /** The missiles of ms that are used up, in order. */
  function SpentMissiles(ms: seq<Missile>, formation: seq<Enemy>, divers: seq<Enemy>, p: Player, hit: Overlap): seq<Missile>
    reads ms, formation, divers, p
  {
    if ms == [] then []
    else
      var m := ms[|ms| - 1];
      SpentMissiles(ms[..|ms| - 1], formation, divers, p, hit) + (if Spent(m, formation, divers, p, hit) then [m] else [])
  }

  /** SpentMissiles lists exactly the used-up missiles of ms. */
  lemma {:induction false} SpentMissilesMembers(ms: seq<Missile>, formation: seq<Enemy>, divers: seq<Enemy>, p: Player, hit: Overlap)
    ensures forall m :: m in SpentMissiles(ms, formation, divers, p, hit) ==> m in ms && Spent(m, formation, divers, p, hit)
    ensures forall m :: m in ms && Spent(m, formation, divers, p, hit) ==> m in SpentMissiles(ms, formation, divers, p, hit)
  {
    if ms != [] {
      var init := ms[..|ms| - 1];
      SpentMissilesMembers(init, formation, divers, p, hit);
      assert ms == init + [ms[|ms| - 1]];
    }
  }

  /**
   * The divers one missile's pass over the divers marks for removal, in
   * order: those a player-fired missile overlaps, and otherwise those whose
   * top edge is below the screen.
   */
  function Marked(m: Missile, divers: seq<Enemy>, hit: Overlap): seq<Enemy>
    reads m, divers
  {
    if divers == [] then []
    else
      var d := divers[|divers| - 1];
      Marked(m, divers[..|divers| - 1], hit)
        + (if (FiredByPlayer(m) && m.CollidesWith(EnemySprite(d), hit)) || d.y > ScreenHeight then [d] else [])
  }

  /** The divers marked while scanning the missiles ms, missile after missile. */
  function MarkedAll(ms: seq<Missile>, divers: seq<Enemy>, hit: Overlap): seq<Enemy>
    reads ms, divers
  {
    if ms == [] then []
    else MarkedAll(ms[..|ms| - 1], divers, hit) + Marked(ms[|ms| - 1], divers, hit)
  }

  /**
   * The divers the pass after the missile scan marks, in order: those that
   * touch the player, and otherwise those below the screen.
   */
  function ContactMarked(divers: seq<Enemy>, p: Player, hit: Overlap): seq<Enemy>
    reads divers, p
  {
    if divers == [] then []
    else
      var d := divers[|divers| - 1];
      ContactMarked(divers[..|divers| - 1], p, hit)
        + (if p.CollidesWith(EnemySprite(d), hit) || d.y > ScreenHeight then [d] else [])
  }

  /** One more diver in a missile's pass. */
  lemma MarkedStep(m: Missile, divers: seq<Enemy>, k: nat, hit: Overlap)
    requires k < |divers|
    ensures Marked(m, divers[..k + 1], hit) == Marked(m, divers[..k], hit)
      + (if (FiredByPlayer(m) && m.CollidesWith(EnemySprite(divers[k]), hit)) || divers[k].y > ScreenHeight then [divers[k]] else [])
  {
    assert divers[..k + 1][..k] == divers[..k];
  }

  /** One more diver in the contact pass. */
  lemma ContactStep(divers: seq<Enemy>, k: nat, p: Player, hit: Overlap)
    requires k < |divers|
    ensures ContactMarked(divers[..k + 1], p, hit) == ContactMarked(divers[..k], p, hit)
      + (if p.CollidesWith(EnemySprite(divers[k]), hit) || divers[k].y > ScreenHeight then [divers[k]] else [])
    ensures ContactLosses(divers[..k + 1], p, hit) ==
      ContactLosses(divers[..k], p, hit) + (if p.CollidesWith(EnemySprite(divers[k]), hit) then 1 else 0)
  {
    assert divers[..k + 1][..k] == divers[..k];
  }

  /** Marked lists exactly the divers that the missile hits or that are below the screen. */
  lemma {:induction false} MarkedMembers(m: Missile, divers: seq<Enemy>, hit: Overlap)
    ensures forall d :: d in Marked(m, divers, hit) ==>
      d in divers && ((FiredByPlayer(m) && m.CollidesWith(EnemySprite(d), hit)) || d.y > ScreenHeight)
    ensures forall d :: d in divers && ((FiredByPlayer(m) && m.CollidesWith(EnemySprite(d), hit)) || d.y > ScreenHeight) ==>
      d in Marked(m, divers, hit)
  {
    if divers != [] {
      var init := divers[..|divers| - 1];
      MarkedMembers(m, init, hit);
      assert divers == init + [divers[|divers| - 1]];
    }
  }

  /** ContactMarked lists exactly the divers that touch the player or are below the screen. */
  lemma {:induction false} ContactMarkedMembers(divers: seq<Enemy>, p: Player, hit: Overlap)
    ensures forall d :: d in ContactMarked(divers, p, hit) ==>
      d in divers && (p.CollidesWith(EnemySprite(d), hit) || d.y > ScreenHeight)
    ensures forall d :: d in divers && (p.CollidesWith(EnemySprite(d), hit) || d.y > ScreenHeight) ==>
      d in ContactMarked(divers, p, hit)
  {
    if divers != [] {
      var init := divers[..|divers| - 1];
      ContactMarkedMembers(init, p, hit);
      assert divers == init + [divers[|divers| - 1]];
    }
  }

  /** Some player-fired missile overlaps enemy d. */
  ghost predicate ShotDown(d: Enemy, ms: seq<Missile>, hit: Overlap)
    reads d, ms
  {
    exists i :: 0 <= i < |ms| && FiredByPlayer(ms[i]) && ms[i].CollidesWith(EnemySprite(d), hit)
  }

  /**
   * What a scan has found so far: the formation enemies and the number of
   * diver entries player missiles hit, the lives enemy missiles took, the
   * used-up missiles and the divers marked for removal.
   */
  datatype Tally = Tally(kills: seq<Enemy>, diverHits: nat, losses: nat, spent: seq<Missile>, marked: seq<Enemy>)

  /** Two tallies one after the other. */
  function Then(a: Tally, b: Tally): Tally {
    Tally(a.kills + b.kills, a.diverHits + b.diverHits, a.losses + b.losses, a.spent + b.spent, a.marked + b.marked)
  }

  /** What one missile's turn of the scan finds. */
  function Turn(m: Missile, formation: seq<Enemy>, divers: seq<Enemy>, p: Player, hit: Overlap): Tally
    reads m, formation, divers, p
  {
    Tally(
      if FiredByPlayer(m) then Struck(m, formation, hit) else [],
      if FiredByPlayer(m) then |Struck(m, divers, hit)| else 0,
      if FiredByEnemy(m) && m.CollidesWith(PlayerSprite(p), hit) then 1 else 0,
      if Spent(m, formation, divers, p, hit) then [m] else [],
      Marked(m, divers, hit))
  }

  /** Every missile's turn, in order. */
  function Turns(ms: seq<Missile>, formation: seq<Enemy>, divers: seq<Enemy>, p: Player, hit: Overlap): (ts: seq<Tally>)
    reads ms, formation, divers, p
    ensures |ts| == |ms|
  {
    if ms == [] then [] else Turns(ms[..|ms| - 1], formation, divers, p, hit) + [Turn(ms[|ms| - 1], formation, divers, p, hit)]
  }

  /** Turn i of the list is missile i's turn. */
  lemma {:induction false} TurnsAt(ms: seq<Missile>, formation: seq<Enemy>, divers: seq<Enemy>, p: Player, hit: Overlap, i: nat)
    requires i < |ms|
    ensures Turns(ms, formation, divers, p, hit)[i] == Turn(ms[i], formation, divers, p, hit)
  {
    if i < |ms| - 1 {
      TurnsAt(ms[..|ms| - 1], formation, divers, p, hit, i);
    }
  }

  /** The turns' findings, one turn after the other. */
  function Total(ts: seq<Tally>): Tally {
    if ts == [] then Tally([], 0, 0, [], []) else Then(Total(ts[..|ts| - 1]), ts[|ts| - 1])
  }

  /** A missile's turn depends only on the missile, the enemies and the player it reads. */
  twostate lemma TurnFramed(new m: Missile, new formation: seq<Enemy>, new divers: seq<Enemy>, new p: Player, new hit: Overlap)
    requires old(allocated(m)) && old(allocated(formation)) && old(allocated(divers)) && old(allocated(p))
    requires unchanged(m, p) && unchanged(formation) && unchanged(divers)
    ensures old(Turn(m, formation, divers, p, hit)) == Turn(m, formation, divers, p, hit)
  {
  }

  /** The findings over all missiles depend only on the missiles, the enemies and the player. */
  twostate lemma TotalFramed(new ms: seq<Missile>, new formation: seq<Enemy>, new divers: seq<Enemy>, new p: Player, new hit: Overlap)
    requires old(allocated(ms)) && old(allocated(formation)) && old(allocated(divers)) && old(allocated(p))
    requires unchanged(ms) && unchanged(formation) && unchanged(divers) && unchanged(p)
    ensures old(Total(Turns(ms, formation, divers, p, hit))) == Total(Turns(ms, formation, divers, p, hit))
  {
  }

  /** The diver pass against the player depends only on the divers and the player. */
  twostate lemma ContactFramed(new divers: seq<Enemy>, new p: Player, new hit: Overlap)
    requires old(allocated(divers)) && old(allocated(p))
    requires unchanged(divers) && unchanged(p)
    ensures old(ContactLosses(divers, p, hit)) == ContactLosses(divers, p, hit)
    ensures old(ContactMarked(divers, p, hit)) == ContactMarked(divers, p, hit)
  {
  }

  /** The missile pass's findings depend only on the missiles, the enemies and the player. */
  twostate lemma ScanFramed(new ms: seq<Missile>, new formation: seq<Enemy>, new divers: seq<Enemy>, new p: Player, new hit: Overlap)
    requires old(allocated(ms)) && old(allocated(formation)) && old(allocated(divers)) && old(allocated(p))
    requires unchanged(ms) && unchanged(formation) && unchanged(divers) && unchanged(p)
    ensures old(ScoreGain(ms, formation, divers, hit)) == ScoreGain(ms, formation, divers, hit)
    ensures old(MissileLosses(ms, p, hit)) == MissileLosses(ms, p, hit)
    ensures old(SpentMissiles(ms, formation, divers, p, hit)) == SpentMissiles(ms, formation, divers, p, hit)
    ensures old(MarkedAll(ms, divers, hit)) == MarkedAll(ms, divers, hit)
    ensures old(FormationKills(ms, formation, hit)) == FormationKills(ms, formation, hit)
  {
  }

  /** The total over one more turn. */
  lemma TotalStep(ts: seq<Tally>, i: nat)
    requires i < |ts|
    ensures Total(ts[..i + 1]) == Then(Total(ts[..i]), ts[i])
  {
    assert ts[..i + 1][..i] == ts[..i];
  }

  /** The total of the turns holds, part by part, the findings the separate functions state. */
  lemma {:induction false} TotalParts(ms: seq<Missile>, formation: seq<Enemy>, divers: seq<Enemy>, p: Player, hit: Overlap)
    ensures var t := Total(Turns(ms, formation, divers, p, hit));
      && t.kills == FormationKills(ms, formation, hit)
      && t.diverHits == DiverKills(ms, divers, hit)
      && t.losses == MissileLosses(ms, p, hit)
      && t.spent == SpentMissiles(ms, formation, divers, p, hit)
      && t.marked == MarkedAll(ms, divers, hit)
  {
    if ms != [] {
      var ts := Turns(ms, formation, divers, p, hit);
      TotalParts(ms[..|ms| - 1], formation, divers, p, hit);
      assert ts[..|ts| - 1] == Turns(ms[..|ms| - 1], formation, divers, p, hit);
    }
  }

  /** Whether d is shot down by the first i + 1 missiles, given the first i. */
  lemma ShotDownStep(d: Enemy, ms: seq<Missile>, i: nat, hit: Overlap)
    requires i < |ms|
    ensures ShotDown(d, ms[..i + 1], hit) <==>
      ShotDown(d, ms[..i], hit) || (FiredByPlayer(ms[i]) && ms[i].CollidesWith(EnemySprite(d), hit))
  {
    if ShotDown(d, ms[..i + 1], hit) {
      var j :| 0 <= j < i + 1 && FiredByPlayer(ms[..i + 1][j]) && ms[..i + 1][j].CollidesWith(EnemySprite(d), hit);
      if j < i {
        assert ms[..i][j] == ms[j];
      }
    }
    if ShotDown(d, ms[..i], hit) {
      var j :| 0 <= j < i && FiredByPlayer(ms[..i][j]) && ms[..i][j].CollidesWith(EnemySprite(d), hit);
      assert ms[..i + 1][j] == ms[j];
    }
    if FiredByPlayer(ms[i]) && ms[i].CollidesWith(EnemySprite(d), hit) {
      assert ms[..i + 1][i] == ms[i];
    }
  }

  /**
   * A diver leaves the game when a player-fired missile overlaps it, when it
   * touches the player, or when its top edge is below the screen.
   */
  ghost predicate Lost(d: Enemy, ms: seq<Missile>, p: Player, hit: Overlap)
    reads d, ms, p
  {
    ShotDown(d, ms, hit) || p.CollidesWith(EnemySprite(d), hit) || d.y > ScreenHeight
  }

  /**
   * The missile passes mark only divers that are shot down or below the
   * screen, and every diver that is shot down.
   */
  lemma {:induction false} MarkedAllMembers(ms: seq<Missile>, divers: seq<Enemy>, hit: Overlap)
    ensures forall d :: d in MarkedAll(ms, divers, hit) ==> d in divers && (ShotDown(d, ms, hit) || d.y > ScreenHeight)
    ensures forall d :: d in divers && ShotDown(d, ms, hit) ==> d in MarkedAll(ms, divers, hit)
  {
    if ms != [] {
      var i := |ms| - 1;
      var m := ms[i];
      MarkedAllMembers(ms[..i], divers, hit);
      MarkedMembers(m, divers, hit);
      assert ms[..i + 1] == ms;
      forall d | d in divers ensures ShotDown(d, ms, hit) <==>
        ShotDown(d, ms[..i], hit) || (FiredByPlayer(m) && m.CollidesWith(EnemySprite(d), hit))
      {
        ShotDownStep(d, ms, i, hit);
      }
    }
  }

  /** The divers a frame's scan marks are exactly the divers that leave the game. */
  lemma DiversToRemoveMembers(ms: seq<Missile>, divers: seq<Enemy>, p: Player, hit: Overlap)
    ensures forall d :: d in MarkedAll(ms, divers, hit) + ContactMarked(divers, p, hit) ==> d in divers && Lost(d, ms, p, hit)
    ensures forall d :: d in divers && Lost(d, ms, p, hit) ==> d in MarkedAll(ms, divers, hit) + ContactMarked(divers, p, hit)
  {
    MarkedAllMembers(ms, divers, hit);
    ContactMarkedMembers(divers, p, hit);
  }

  /** Every formation enemy a scan marks was overlapped by a player-fired missile. */
  lemma {:induction false} FormationKillsAreShotDown(ms: seq<Missile>, formation: seq<Enemy>, hit: Overlap, e: Enemy)
    requires e in FormationKills(ms, formation, hit)
    ensures e in formation && ShotDown(e, ms, hit)
  {
    var m := ms[|ms| - 1];
    var init := ms[..|ms| - 1];
    if e in FormationKills(init, formation, hit) {
      FormationKillsAreShotDown(init, formation, hit, e);
      var i :| 0 <= i < |init| && FiredByPlayer(init[i]) && init[i].CollidesWith(EnemySprite(e), hit);
      assert ms[i] == init[i];
    } else {
      assert FiredByPlayer(m) && e in Struck(m, formation, hit);
      StruckMembers(m, formation, hit);
      assert ms[|ms| - 1] == m;
    }
  }

  /** Every formation enemy a player-fired missile overlaps is marked, so it leaves its row. */
  lemma {:induction false} ShotDownAreFormationKills(ms: seq<Missile>, formation: seq<Enemy>, hit: Overlap, e: Enemy)
    requires e in formation && ShotDown(e, ms, hit)
    ensures e in FormationKills(ms, formation, hit)
  {
    var i :| 0 <= i < |ms| && FiredByPlayer(ms[i]) && ms[i].CollidesWith(EnemySprite(e), hit);
    var init := ms[..|ms| - 1];
    if i < |ms| - 1 {
      assert init[i] == ms[i];
      ShotDownAreFormationKills(init, formation, hit, e);
    } else {
      StruckMembers(ms[i], formation, hit);
    }
  }

  /**
   * A diver that a missile hits as a formation enemy is hit by the same
   * missile in the diver pass, so it is marked for removal from the divers
   * as well.
   */
  lemma KilledDiversAreMarked(ms: seq<Missile>, formation: seq<Enemy>, divers: seq<Enemy>, hit: Overlap)
    ensures forall d :: d in FormationKills(ms, formation, hit) && d in divers ==> d in MarkedAll(ms, divers, hit)
  {
    forall d | d in FormationKills(ms, formation, hit) && d in divers ensures d in MarkedAll(ms, divers, hit) {
      FormationKillsAreShotDown(ms, formation, hit, d);
      MarkedAllMembers(ms, divers, hit);
    }
  }

  /** Missiles fired by enemies never score. */
  lemma {:induction false} EnemyFireNeverScores(ms: seq<Missile>, formation: seq<Enemy>, divers: seq<Enemy>, hit: Overlap)
    requires forall i :: 0 <= i < |ms| ==> !FiredByPlayer(ms[i])
    ensures ScoreGain(ms, formation, divers, hit) == 0
  {
    if ms != [] {
      EnemyFireNeverScores(ms[..|ms| - 1], formation, divers, hit);
    }
  }

  /** Missiles fired by the player never cost a life. */
  lemma {:induction false} PlayerFireNeverHurts(ms: seq<Missile>, p: Player, hit: Overlap)
    requires forall i :: 0 <= i < |ms| ==> !FiredByEnemy(ms[i])
    ensures MissileLosses(ms, p, hit) == 0
  {
    if ms != [] {
      PlayerFireNeverHurts(ms[..|ms| - 1], p, hit);
    }
  }

  /** Scores of a scan add up missile by missile. */
  lemma {:induction false} ScoreGainAppend(ms1: seq<Missile>, ms2: seq<Missile>, formation: seq<Enemy>, divers: seq<Enemy>, hit: Overlap)
    ensures ScoreGain(ms1 + ms2, formation, divers, hit) == ScoreGain(ms1, formation, divers, hit) + ScoreGain(ms2, formation, divers, hit)
  {
    if ms2 == [] {
      assert ms1 + ms2 == ms1;
    } else {
      var init := ms2[..|ms2| - 1];
      assert (ms1 + ms2)[..|ms1 + ms2| - 1] == ms1 + init;
      assert (ms1 + ms2)[|ms1 + ms2| - 1] == ms2[|ms2| - 1];
      ScoreGainAppend(ms1, init, formation, divers, hit);
    }
  }

  /**
   * A diver still sits in its formation row, so one player missile that
   * overlaps it scores both the formation 10 and the diver 20.
   */
  lemma DiverScoresTwice(m: Missile, formation: seq<Enemy>, divers: seq<Enemy>, hit: Overlap, d: Enemy)
    requires FiredByPlayer(m) && m.CollidesWith(EnemySprite(d), hit)
    requires d in formation && d in divers
    ensures ScoreGain([m], formation, divers, hit) >= 30
  {
    StruckMembers(m, formation, hit);
    StruckMembers(m, divers, hit);
    assert [m][..0] == [];
  }
}
