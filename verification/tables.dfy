/**
 * Key handling for the tables of the store: every table is a finite map keyed by
 * its integer primary key. New rows receive the rowid SQLite assigns to an
 * `INTEGER PRIMARY KEY` column (one more than the largest key, or 1 for an empty
 * table), and full-table selects list the rows in ascending key order, which is
 * the order a rowid table is scanned in.
 */
module Tables {

  /** True iff `ids` is strictly increasing. */
  predicate Increasing(ids: seq<int>) {
    forall i, j | 0 <= i < j < |ids| :: ids[i] < ids[j]
  }

  /** Some member of a nonempty key set. */
  lemma Member(ks: set<int>) returns (x: int)
    requires ks != {}
    ensures x in ks
  {
    if forall y :: y !in ks {
      assert false;
    }
    x :| x in ks;
  }

  /** The largest key of a nonempty key set, found by removing one key at a time. */
  lemma {:induction false} LargestOf(ks: set<int>) returns (m: int)
    requires ks != {}
    ensures m in ks && forall k | k in ks :: k <= m
    decreases |ks|
  {
    var x := Member(ks);
    var others := ks - {x};
    if others == {} {
      m := x;
      forall k | k in ks
        ensures k <= m
      {
        assert k !in others;
      }
    } else {
      var below := LargestOf(others);
      m := if x <= below then below else x;
      forall k | k in ks
        ensures k <= m
      {
        if k != x {
          assert k in others;
        }
      }
    }
  }

  /** The smallest key of a nonempty key set, found by removing one key at a time. */
  lemma {:induction false} SmallestOf(ks: set<int>) returns (m: int)
    requires ks != {}
    ensures m in ks && forall k | k in ks :: m <= k
    decreases |ks|
  {
    var x := Member(ks);
    var others := ks - {x};
    if others == {} {
      m := x;
      forall k | k in ks
        ensures m <= k
      {
        assert k !in others;
      }
    } else {
      var above := SmallestOf(others);
      m := if above <= x then above else x;
      forall k | k in ks
        ensures m <= k
      {
        if k != x {
          assert k in others;
        }
      }
    }
  }

  /** The largest key of a nonempty key set. */
  function Largest(ks: set<int>): (m: int)
    requires ks != {}
    ensures m in ks
    ensures forall k | k in ks :: k <= m
  {
    assert exists m :: m in ks && forall k | k in ks :: k <= m by {
      var top := LargestOf(ks);
    }
    var m :| m in ks && forall k | k in ks :: k <= m;
    m
  }

  /** The smallest key of a nonempty key set. */
  function Smallest(ks: set<int>): (m: int)
    requires ks != {}
    ensures m in ks
    ensures forall k | k in ks :: m <= k
  {
    assert exists m :: m in ks && forall k | k in ks :: m <= k by {
      var bottom := SmallestOf(ks);
    }
    var m :| m in ks && forall k | k in ks :: m <= k;
    m
  }

  /** The key SQLite gives the next row inserted into a table holding `m`. */
  function NextId<T>(m: map<int, T>): (id: int)
    ensures id !in m
    ensures forall k | k in m :: k < id
    ensures m == map[] ==> id == 1
  {
    if m == map[] then 1 else Largest(m.Keys) + 1
  }

  /** The next key is one past the largest key. */
  lemma NextIdFollowsLargest<T>(m: map<int, T>, top: int)
    requires top in m && forall k | k in m :: k <= top
    ensures NextId(m) == top + 1
  {
    assert Largest(m.Keys) <= top && top <= Largest(m.Keys);
  }

  /** In a table whose keys are all positive the next key is positive too. */
  lemma NextIdPositive<T>(m: map<int, T>)
    requires forall k | k in m :: k > 0
    ensures NextId(m) > 0
  {
    if m != map[] {
      var top := Largest(m.Keys);
      assert top in m;
    }
  }

  /** The keys of `ks` in ascending order, each exactly once. */
  function Ascending(ks: set<int>): (ids: seq<int>)
    ensures Increasing(ids)
    ensures |ids| == |ks|
    ensures forall k :: k in ks <==> k in ids
    decreases |ks|
  {
    if ks == {} then []
    else
      var m := Smallest(ks);
      var rest := Ascending(ks - {m});
      [m] + rest
  }

  /** The rows of `m` under the keys `ids`, in the order of `ids`. */
  function RowsAt<T>(m: map<int, T>, ids: seq<int>): (rows: seq<(int, T)>)
    requires forall i | 0 <= i < |ids| :: ids[i] in m
    ensures |rows| == |ids|
    ensures forall i | 0 <= i < |ids| :: rows[i] == (ids[i], m[ids[i]])
  {
    if ids == [] then [] else [(ids[0], m[ids[0]])] + RowsAt(m, ids[1..])
  }

  /** Rows taken under increasing keys that cover the table form a listing of it. */
  lemma RowsAtListing<T>(m: map<int, T>, ids: seq<int>)
    requires Increasing(ids) && |ids| == |m|
    requires forall i | 0 <= i < |ids| :: ids[i] in m
    requires forall k | k in m :: k in ids
    ensures var rows := RowsAt(m, ids);
      && |rows| == |m|
      && (forall i | 0 <= i < |rows| :: rows[i].0 in m && m[rows[i].0] == rows[i].1)
      && (forall id | id in m :: exists i | 0 <= i < |rows| :: rows[i].0 == id)
      && (forall i, j | 0 <= i < j < |rows| :: rows[i].0 < rows[j].0)
  {
    var rows := RowsAt(m, ids);
    forall id | id in m
      ensures exists i | 0 <= i < |rows| :: rows[i].0 == id
    {
      assert id in ids;
      var i :| 0 <= i < |ids| && ids[i] == id;
      assert rows[i].0 == id;
    }
  }

  /** Every row of a table with its key, in ascending key order, each exactly once. */
  function Rows<T>(m: map<int, T>): (rows: seq<(int, T)>)
    ensures |rows| == |m|
    ensures forall i | 0 <= i < |rows| :: rows[i].0 in m && m[rows[i].0] == rows[i].1
    ensures forall id | id in m :: exists i | 0 <= i < |rows| :: rows[i].0 == id
    ensures forall i, j | 0 <= i < j < |rows| :: rows[i].0 < rows[j].0
  {
    var ids := Ascending(m.Keys);
    assert forall i | 0 <= i < |ids| :: ids[i] in m by {
      forall i | 0 <= i < |ids|
        ensures ids[i] in m
      {
        assert ids[i] in ids;
      }
    }
    RowsAtListing(m, ids);
    RowsAt(m, ids)
  }
}
