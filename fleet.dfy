/**
 * The fixed rules of the enemy formation: which columns each of the six rows
 * fills, the colour of each row, where a formation slot lies on screen, and
 * which enemies of a formation may start a dive.
 */
module Fleet {
  import opened Geometry
  import opened Lists

  datatype Color = Yellow | Red | Purple | Turquoise

  /** Rows created for one fleet. */
  const FleetRows: nat := 6

  /** The colour of each formation row (GameManager.ENEMY_COLORS). */
  function RowColor(row: int): Color
    requires 0 <= row < FleetRows
  {
    if row == 0 then Yellow
    else if row == 1 then Red
    else if row == 2 then Purple
    else Turquoise
  }

  /** lo, lo + 1, ..., lo + n - 1. */
  function Range(lo: int, n: nat): seq<int>
  {
    seq(n, k => lo + k)
  }

  /**
   * The column tags of a new fleet's row, in the order they are added:
   * columns 3 and 6 in row 0, six columns from 2 in row 1, eight from 1 in
   * row 2, and all ten columns in rows 3 to 5.
   */
  function FleetColumns(row: int): seq<int>
    requires 0 <= row < FleetRows
  {
    if row == 0 then [3, 6]
    else if row == 1 then Range(2, 6)
    else if row == 2 then Range(1, 8)
    else Range(0, 10)
  }

  /** Number of enemies in a fresh fleet, row by row. */
  function FleetSize(rows: nat): nat
    requires rows <= FleetRows
  {
    if rows == 0 then 0 else FleetSize(rows - 1) + |FleetColumns(rows - 1)|
  }

  /**
   * Row sizes 2, 6, 8, 10, 10, 10 and 46 enemies in all; every column lies
   * in 0..9, increases along the row, and the rows are centred on the
   * middle of the ten columns.
   */
  lemma FleetShape()
    ensures |FleetColumns(0)| == 2 && |FleetColumns(1)| == 6 && |FleetColumns(2)| == 8
    ensures |FleetColumns(3)| == 10 && |FleetColumns(4)| == 10 && |FleetColumns(5)| == 10
    ensures FleetSize(FleetRows) == 46
    ensures forall row, k :: 0 <= row < FleetRows && 0 <= k < |FleetColumns(row)| ==>
              0 <= FleetColumns(row)[k] < 10
    ensures forall row, k :: 0 <= row < FleetRows && 0 < k < |FleetColumns(row)| ==>
              FleetColumns(row)[k - 1] < FleetColumns(row)[k]
    ensures forall row, k :: 0 <= row < FleetRows && 0 <= k < |FleetColumns(row)| ==>
              FleetColumns(row)[k] + FleetColumns(row)[|FleetColumns(row)| - 1 - k] == 9
  {
  }

  /** Horizontal position of formation column col (Enemy.resetPosition). */
  function SlotX(col: int): real {
    50.0 + col as real * (EnemySize + EnemySpacing)
  }

  /**
   * Vertical position of formation row row (Enemy.resetPosition); an
   * entering enemy stops moving down once it reaches it.
   */
  function SlotY(row: int): real {
    70.0 + row as real * (EnemySize + EnemySpacing)
  }

  // ---------------------------------------------------------------------
  // Dive candidates

  /** The first element of a row and, when it has more than one, its last. */
  function Ends<T>(row: seq<T>): seq<T> {
    if |row| == 0 then []
    else if |row| == 1 then [row[0]]
    else [row[0], row[|row| - 1]]
  }

  /**
   * The enemies allowed to dive (GameManager.getDivingCandidates): the ends
   * of every row, row after row.
   */
  function Candidates<T>(rows: seq<seq<T>>): seq<T> {
    if rows == [] then [] else Candidates(rows[..|rows| - 1]) + Ends(rows[|rows| - 1])
  }

  /** min(|row|, 2) summed over the rows: one or two per non-empty row. */
  function PerimeterSize<T>(rows: seq<seq<T>>): nat {
    if rows == [] then 0
    else PerimeterSize(rows[..|rows| - 1]) + (if |rows[|rows| - 1]| < 2 then |rows[|rows| - 1]| else 2)
  }

  /** Each row contributes min(size, 2) candidates. */
  lemma {:induction false} CandidatesCount<T>(rows: seq<seq<T>>)
    ensures |Candidates(rows)| == PerimeterSize(rows)
  {
    if rows != [] {
      CandidatesCount(rows[..|rows| - 1]);
    }
  }

  /** Candidates are listed in row order: the rows' candidates concatenated. */
  lemma {:induction false} CandidatesConcat<T>(rows1: seq<seq<T>>, rows2: seq<seq<T>>)
    ensures Candidates(rows1 + rows2) == Candidates(rows1) + Candidates(rows2)
  {
    if rows2 == [] {
      assert rows1 + rows2 == rows1;
    } else {
      var init, last := rows2[..|rows2| - 1], rows2[|rows2| - 1];
      var all := rows1 + rows2;
      assert all[..|all| - 1] == rows1 + init;
      assert all[|all| - 1] == last;
      CandidatesConcat(rows1, init);
      assert Candidates(all) == Candidates(rows1 + init) + Ends(last);
      assert Candidates(rows2) == Candidates(init) + Ends(last);
    }
  }

  /**
   * An element is a candidate exactly when it is the first or the last
   * element of some non-empty row.
   */
  lemma {:induction false} CandidatesAreEnds<T>(rows: seq<seq<T>>, x: T)
    ensures x in Candidates(rows) <==>
              exists r :: 0 <= r < |rows| && rows[r] != [] && (x == rows[r][0] || x == rows[r][|rows[r]| - 1])
  {
    if rows != [] {
      var init := rows[..|rows| - 1];
      CandidatesAreEnds(init, x);
      var last := rows[|rows| - 1];
      if x in Candidates(rows) {
        if x in Candidates(init) {
          var r :| 0 <= r < |init| && init[r] != [] && (x == init[r][0] || x == init[r][|init[r]| - 1]);
          assert rows[r] == init[r];
        } else {
          assert x in Ends(last);
          assert last != [] && (x == last[0] || x == last[|last| - 1]);
        }
      }
      if exists r :: 0 <= r < |rows| && rows[r] != [] && (x == rows[r][0] || x == rows[r][|rows[r]| - 1]) {
        var r :| 0 <= r < |rows| && rows[r] != [] && (x == rows[r][0] || x == rows[r][|rows[r]| - 1]);
        if r < |rows| - 1 {
          assert init[r] == rows[r];
        } else {
          assert x in Ends(last);
        }
      }
    }
  }

  /**
   * In a formation where no enemy occurs twice, an enemy strictly inside
   * its row is never a dive candidate.
   */
  lemma InteriorNeverCandidate<T>(rows: seq<seq<T>>, r: int, k: int)
    requires DistinctRows(rows)
    requires 0 <= r < |rows| && 0 < k < |rows[r]| - 1
    ensures rows[r][k] !in Candidates(rows)
  {
    var x := rows[r][k];
    CandidatesAreEnds(rows, x);
    forall r' | 0 <= r' < |rows| && rows[r'] != []
      ensures x != rows[r'][0] && x != rows[r'][|rows[r']| - 1]
    {
      if r' == r {
        assert Distinct(rows[r]);
      } else {
        assert x in rows[r];
      }
    }
  }
}
