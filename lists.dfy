/**
 * List operations of java.util.List that the game engine relies on, stated
 * over Dafny sequences. Entities are compared by identity, as Java's
 * removeAll does for classes that do not override equals.
 */
module Lists {

  /** No element occurs twice. */
  ghost predicate Distinct<T>(s: seq<T>) {
    forall i, j :: 0 <= i < j < |s| ==> s[i] != s[j]
  }

  /** No element occurs twice in a row, and no two rows share an element. */
  ghost predicate DistinctRows<T>(rows: seq<seq<T>>) {
    && (forall r :: 0 <= r < |rows| ==> Distinct(rows[r]))
    && (forall r1, r2, x :: 0 <= r1 < |rows| && 0 <= r2 < |rows| && r1 != r2 && x in rows[r1] ==> x !in rows[r2])
  }

  /** Every element of every row. */
  function Members<T>(rows: seq<seq<T>>): (m: set<T>)
    ensures forall r, k :: 0 <= r < |rows| && 0 <= k < |rows[r]| ==> rows[r][k] in m
  {
    set r, k | 0 <= r < |rows| && 0 <= k < |rows[r]| :: rows[r][k]
  }

  /** The rows one after the other. */
  function Flatten<T>(rows: seq<seq<T>>): seq<T> {
    if rows == [] then [] else Flatten(rows[..|rows| - 1]) + rows[|rows| - 1]
  }

  /** The flattened rows hold exactly the members of the rows. */
  lemma {:induction false} FlattenMembers<T>(rows: seq<seq<T>>)
    ensures forall x :: x in Flatten(rows) ==> x in Members(rows)
    ensures forall x :: x in Members(rows) ==> x in Flatten(rows)
  {
    if rows != [] {
      var init := rows[..|rows| - 1];
      var last := rows[|rows| - 1];
      FlattenMembers(init);
      assert Flatten(rows) == Flatten(init) + last;
      forall x | x in Members(rows) ensures x in Flatten(rows) {
        var r, k :| 0 <= r < |rows| && 0 <= k < |rows[r]| && rows[r][k] == x;
        if r < |rows| - 1 {
          assert init[r][k] == x;
        } else {
          assert x in last;
        }
      }
      forall x | x in Flatten(rows) ensures x in Members(rows) {
        if x in Flatten(init) {
          var r, k :| 0 <= r < |init| && 0 <= k < |init[r]| && init[r][k] == x;
          assert rows[r][k] == x;
        } else {
          assert x in last;
          var k :| 0 <= k < |last| && last[k] == x;
          assert rows[|rows| - 1][k] == x;
        }
      }
    }
  }

  /** Flattening one more row. */
  lemma FlattenStep<T>(rows: seq<seq<T>>, r: nat)
    requires r < |rows|
    ensures Flatten(rows[..r + 1]) == Flatten(rows[..r]) + rows[r]
  {
    assert rows[..r + 1][..r] == rows[..r];
  }

  /** True when every row is empty (vacuously so when there are no rows). */
  predicate AllEmpty<T>(rows: seq<seq<T>>) {
    forall r :: 0 <= r < |rows| ==> rows[r] == []
  }

  /**
   * Java's s.removeAll(gone): the elements of s that do not occur in gone,
   * in their original order.
   */
  function RemoveAll<T(==)>(s: seq<T>, gone: seq<T>): (r: seq<T>)
    ensures |r| <= |s|
    ensures forall x :: x in r ==> x in s && x !in gone
    ensures forall x :: x in s && x !in gone ==> x in r
  {
    if s == [] then []
    else if s[0] in gone then RemoveAll(s[1..], gone)
    else [s[0]] + RemoveAll(s[1..], gone)
  }

  /** Removing nothing that occurs in s leaves s as it was. */
  lemma {:induction false} RemoveAllKeeps<T>(s: seq<T>, gone: seq<T>)
    requires forall x :: x in s ==> x !in gone
    ensures RemoveAll(s, gone) == s
  {
    if s != [] {
      RemoveAllKeeps(s[1..], gone);
    }
  }

  /** Removal distributes over concatenation. */
  lemma {:induction false} RemoveAllAppend<T>(s: seq<T>, t: seq<T>, gone: seq<T>)
    ensures RemoveAll(s + t, gone) == RemoveAll(s, gone) + RemoveAll(t, gone)
  {
    if s == [] {
      assert s + t == t;
    } else {
      assert (s + t)[1..] == s[1..] + t;
      RemoveAllAppend(s[1..], t, gone);
    }
  }

  /** Two removals in a row are one removal of both lists. */
  lemma {:induction false} RemoveAllTwice<T>(s: seq<T>, a: seq<T>, b: seq<T>)
    ensures RemoveAll(RemoveAll(s, a), b) == RemoveAll(s, a + b)
  {
    if s != [] {
      RemoveAllTwice(s[1..], a, b);
      if s[0] !in a {
        assert RemoveAll(s, a) == [s[0]] + RemoveAll(s[1..], a);
        assert RemoveAll(s, a)[1..] == RemoveAll(s[1..], a);
      }
    }
  }

  /** Removal keeps a list free of repetitions. */
  lemma {:induction false} RemoveAllDistinct<T>(s: seq<T>, gone: seq<T>)
    requires Distinct(s)
    ensures Distinct(RemoveAll(s, gone))
  {
    if s != [] {
      assert Distinct(s[1..]) by {
        forall i, j | 0 <= i < j < |s[1..]| ensures s[1..][i] != s[1..][j] {
          assert s[1..][i] == s[i + 1] && s[1..][j] == s[j + 1];
        }
      }
      RemoveAllDistinct(s[1..], gone);
      var rest := RemoveAll(s[1..], gone);
      assert s[0] !in s[1..] by {
        forall k | 0 <= k < |s[1..]| ensures s[1..][k] != s[0] {
          assert s[1..][k] == s[k + 1];
        }
      }
      assert s[0] !in rest;
    }
  }

  /** Removing the same elements from every row keeps the rows free of repetitions. */
  lemma DistinctRowsRemoveAll<T>(rows: seq<seq<T>>, gone: seq<T>, rows': seq<seq<T>>)
    requires DistinctRows(rows)
    requires |rows'| == |rows| && forall r :: 0 <= r < |rows| ==> rows'[r] == RemoveAll(rows[r], gone)
    ensures DistinctRows(rows')
    ensures forall x :: x in Members(rows') ==> x in Members(rows) && x !in gone
  {
    forall r | 0 <= r < |rows'| ensures Distinct(rows'[r]) {
      RemoveAllDistinct(rows[r], gone);
    }
    forall x | x in Members(rows') ensures x in Members(rows) && x !in gone {
      var r, k :| 0 <= r < |rows'| && 0 <= k < |rows'[r]| && rows'[r][k] == x;
      assert x in rows[r];
    }
  }

  /** Removal depends only on which elements of s the removed list holds. */
  lemma {:induction false} RemoveAllSameMembers<T>(s: seq<T>, a: seq<T>, b: seq<T>)
    requires forall x :: x in s ==> (x in a <==> x in b)
    ensures RemoveAll(s, a) == RemoveAll(s, b)
  {
    if s != [] {
      assert s[0] in s;
      RemoveAllSameMembers(s[1..], a, b);
    }
  }

  /** Appending new elements to row 0 keeps the rows free of repetitions. */
  lemma DistinctRowsExtend<T>(rows: seq<seq<T>>, extra: seq<T>)
    requires DistinctRows(rows) && |rows| > 0 && Distinct(extra)
    requires forall x :: x in extra ==> x !in Members(rows)
    ensures DistinctRows(rows[0 := rows[0] + extra])
  {
    var rows' := rows[0 := rows[0] + extra];
    var row := rows[0] + extra;
    assert Distinct(row) by {
      forall i, j | 0 <= i < j < |row| ensures row[i] != row[j] {
        if j >= |rows[0]| && i < |rows[0]| {
          assert row[j] in extra;
          assert row[i] in Members(rows);
        }
      }
    }
    forall r1, r2, x | 0 <= r1 < |rows'| && 0 <= r2 < |rows'| && r1 != r2 && x in rows'[r1]
      ensures x !in rows'[r2]
    {
      if r1 == 0 && x in extra {
        assert x !in Members(rows);
      } else if r2 == 0 && x in rows[r1] {
        var k :| 0 <= k < |rows[r1]| && rows[r1][k] == x;
        assert x in Members(rows);
      }
    }
  }

  /** The members of two formations one after the other. */
  lemma MembersConcat<T>(a: seq<seq<T>>, b: seq<seq<T>>)
    ensures Members(a + b) == Members(a) + Members(b)
  {
    var ab := a + b;
    forall x | x in Members(ab) ensures x in Members(a) + Members(b) {
      var r, k :| 0 <= r < |ab| && 0 <= k < |ab[r]| && ab[r][k] == x;
      if r >= |a| {
        assert b[r - |a|][k] == x;
      }
    }
    forall x | x in Members(a) + Members(b) ensures x in Members(ab) {
      if x in Members(a) {
        var r, k :| 0 <= r < |a| && 0 <= k < |a[r]| && a[r][k] == x;
        assert ab[r][k] == x;
      } else {
        var r, k :| 0 <= r < |b| && 0 <= k < |b[r]| && b[r][k] == x;
        assert ab[r + |a|][k] == x;
      }
    }
  }

  /** Two formations without a common element make one without repetitions. */
  lemma DistinctRowsConcat<T>(a: seq<seq<T>>, b: seq<seq<T>>)
    requires DistinctRows(a) && DistinctRows(b)
    requires forall x :: x in Members(b) ==> x !in Members(a)
    ensures DistinctRows(a + b)
    ensures Members(a + b) == Members(a) + Members(b)
  {
    MembersConcat(a, b);
    var ab := a + b;
    forall r1, r2, x | 0 <= r1 < |ab| && 0 <= r2 < |ab| && r1 != r2 && x in ab[r1]
      ensures x !in ab[r2]
    {
      if r1 < |a| && r2 >= |a| {
        var k :| 0 <= k < |a[r1]| && a[r1][k] == x;
        assert x in Members(a);
        assert ab[r2] == b[r2 - |a|];
      } else if r1 >= |a| && r2 < |a| {
        var k :| 0 <= k < |b[r1 - |a|]| && b[r1 - |a|][k] == x;
        assert x in Members(b);
        assert ab[r2] == a[r2];
      } else if r1 >= |a| {
        assert ab[r1] == b[r1 - |a|] && ab[r2] == b[r2 - |a|];
      }
    }
  }
}
