/**
 * Table-level queries used by every operation: looking a row up by its key, the set of
 * keys, and dropping a whole sibling group (the ORM's delete cascade from a parent to
 * its children).
 */
module Tables {
  import opened Values
  import opened Records
  import opened Ordering
  import opened Rollup

  /** `query(...).filter(id == key).first()`: the position of the first row with that key, or -1. */
  function IndexOf<D>(rows: seq<Row<D>>, id: int): (i: int)
    ensures -1 <= i < |rows|
    ensures 0 <= i ==> rows[i].id == id
  {
    IndexFromFirst(rows, id, 0);
    IndexFrom(rows, id, 0)
  }

  /** The position of the first row with key id at or after position from, or -1. */
  function IndexFrom<D>(rows: seq<Row<D>>, id: int, from: nat): (i: int)
    requires from <= |rows|
    ensures -1 <= i < |rows|
    ensures 0 <= i ==> from <= i
    decreases |rows| - from
  {
    if from == |rows| then -1
    else if rows[from].id == id then from
    else IndexFrom(rows, id, from + 1)
  }

  /** The scan from position from finds the first row there with the key, and -1 exactly when there is none. */
  lemma {:induction false} IndexFromFirst<D>(rows: seq<Row<D>>, id: int, from: nat)
    requires from <= |rows|
    ensures forall j :: from <= j < IndexFrom(rows, id, from) ==> rows[j].id != id
    ensures 0 <= IndexFrom(rows, id, from) ==> rows[IndexFrom(rows, id, from)].id == id
    ensures IndexFrom(rows, id, from) == -1 <==> forall j :: from <= j < |rows| ==> rows[j].id != id
    decreases |rows| - from
  {
    if from < |rows| && rows[from].id != id {
      IndexFromFirst(rows, id, from + 1);
    }
  }

  /** The lookup finds the first row with the key, and reports -1 exactly when no row has it. */
  lemma IndexOfFirst<D>(rows: seq<Row<D>>, id: int)
    ensures forall j :: 0 <= j < IndexOf(rows, id) ==> rows[j].id != id
    ensures IndexOf(rows, id) == -1 <==> forall j :: 0 <= j < |rows| ==> rows[j].id != id
  {
    IndexFromFirst(rows, id, 0);
  }

  /** A row with the key and none before it is the row the lookup finds. */
  lemma IndexOfAt<D>(rows: seq<Row<D>>, id: int, j: int)
    requires 0 <= j < |rows| && rows[j].id == id
    requires forall k :: 0 <= k < j ==> rows[k].id != id
    ensures IndexOf(rows, id) == j
  {
    IndexOfFirst(rows, id);
  }

  /** The keys present in a table. */
  function Ids<D>(rows: seq<Row<D>>): set<int> {
    set j | 0 <= j < |rows| :: rows[j].id
  }

  /** A key is present exactly when the lookup finds it. */
  lemma IdsAndIndexOf<D>(rows: seq<Row<D>>, id: int)
    ensures id in Ids(rows) <==> IndexOf(rows, id) >= 0
  {
    IndexOfFirst(rows, id);
    if id in Ids(rows) {
      var j :| 0 <= j < |rows| && rows[j].id == id;
    }
  }

  /**
   * Primary-key uniqueness, stated row by row: every row is the row a lookup by its own
   * key finds, so no two rows share a key.
   */
  ghost predicate UniqueIds<D>(rows: seq<Row<D>>) {
    forall j :: 0 <= j < |rows| ==> IndexOf(rows, rows[j].id) == j
  }

  /** Keys that differ pairwise are unique. */
  lemma DistinctIdsUnique<D>(rows: seq<Row<D>>)
    requires forall j, l :: 0 <= j < l < |rows| ==> rows[j].id != rows[l].id
    ensures UniqueIds(rows)
  {
    forall j | 0 <= j < |rows| ensures IndexOf(rows, rows[j].id) == j {
      IndexOfAt(rows, rows[j].id, j);
    }
  }

  /** Every key was issued by the table's counter: it lies in 1..next-1. */
  ghost predicate KeysBelow<D>(rows: seq<Row<D>>, next: int) {
    forall j :: 0 <= j < |rows| ==> 1 <= rows[j].id < next
  }

  /** Under unique keys no two rows share a key. */
  lemma UniqueIdsDistinct<D>(rows: seq<Row<D>>)
    requires UniqueIds(rows)
    ensures forall j, l :: 0 <= j < l < |rows| ==> rows[j].id != rows[l].id
  {
  }

  /** Two tables with the same keys in the same places. */
  ghost predicate SameKeys<D, E>(a: seq<Row<D>>, b: seq<Row<E>>) {
    |a| == |b| && forall j :: 0 <= j < |a| ==> a[j].id == b[j].id
  }

  /** Rewriting rows in place without touching their keys keeps lookups, key sets and uniqueness. */
  lemma SameKeysKeepLookups<D, E>(a: seq<Row<D>>, b: seq<Row<E>>, next: int)
    requires SameKeys(a, b)
    ensures Ids(a) == Ids(b)
    ensures forall id :: IndexOf(a, id) == IndexOf(b, id)
    ensures UniqueIds(a) ==> UniqueIds(b)
    ensures KeysBelow(a, next) ==> KeysBelow(b, next)
  {
    forall id ensures IndexOf(a, id) == IndexOf(b, id) {
      IndexOfFirst(a, id);
      IndexOfFirst(b, id);
      var i, k := IndexOf(a, id), IndexOf(b, id);
      if i >= 0 {
        IndexOfAt(b, id, i);
      }
    }
    assert forall x :: x in Ids(a) ==> x in Ids(b);
    forall x | x in Ids(b) ensures x in Ids(a) {
      var j :| 0 <= j < |b| && b[j].id == x;
      assert a[j].id == x;
    }
  }

  /** A row with a fresh key appended to a table. */
  lemma AppendFreshKey<D>(rows: seq<Row<D>>, row: Row<D>, next: int)
    requires UniqueIds(rows) && KeysBelow(rows, next) && row.id == next && next >= 1
    ensures UniqueIds(rows + [row]) && KeysBelow(rows + [row], next + 1)
    ensures Ids(rows + [row]) == Ids(rows) + {row.id}
    ensures row.id !in Ids(rows)
    ensures forall j :: 0 <= j < |rows| ==> IndexOf(rows + [row], rows[j].id) == j
    ensures IndexOf(rows + [row], row.id) == |rows|
  {
    var r := rows + [row];
    assert r[|rows|] == row;
    forall x | x in Ids(r) ensures x in Ids(rows) + {row.id} {
      var j :| 0 <= j < |r| && r[j].id == x;
      if j < |rows| { assert rows[j].id == x; }
    }
    forall x | x in Ids(rows) + {row.id} ensures x in Ids(r) {
      if x == row.id {
        assert r[|rows|].id == x;
      } else {
        var j :| 0 <= j < |rows| && rows[j].id == x;
        assert r[j].id == x;
      }
    }
    forall j | 0 <= j < |rows| ensures IndexOf(r, rows[j].id) == j {
      IndexOfAt(r, rows[j].id, j);
    }
    IndexOfAt(r, row.id, |rows|);
  }

  /** Removing a row under unique keys removes exactly its key. */
  lemma RemoveAtKeys<D>(rows: seq<Row<D>>, i: int, next: int)
    requires 0 <= i < |rows| && UniqueIds(rows)
    ensures UniqueIds(RemoveAt(rows, i))
    ensures KeysBelow(rows, next) ==> KeysBelow(RemoveAt(rows, i), next)
    ensures Ids(RemoveAt(rows, i)) == Ids(rows) - {rows[i].id}
  {
    UniqueIdsDistinct(rows);
    RemoveAtDistinct(rows, i);
    DistinctIdsUnique(RemoveAt(rows, i));
    RemoveAtIds(rows, i);
  }

  /** Removing a row keeps pairwise distinct keys distinct. */
  lemma RemoveAtDistinct<D>(rows: seq<Row<D>>, i: int)
    requires 0 <= i < |rows|
    requires forall j, l :: 0 <= j < l < |rows| ==> rows[j].id != rows[l].id
    ensures forall j, l :: 0 <= j < l < |RemoveAt(rows, i)| ==> RemoveAt(rows, i)[j].id != RemoveAt(rows, i)[l].id
  {
    var r := RemoveAt(rows, i);
    forall j, l | 0 <= j < l < |r| ensures r[j].id != r[l].id {
      assert r[j] == rows[if j < i then j else j + 1] && r[l] == rows[if l < i then l else l + 1];
    }
  }

  /** With pairwise distinct keys, removing a row removes exactly its key. */
  lemma RemoveAtIds<D>(rows: seq<Row<D>>, i: int)
    requires 0 <= i < |rows|
    requires forall j, l :: 0 <= j < l < |rows| ==> rows[j].id != rows[l].id
    ensures Ids(RemoveAt(rows, i)) == Ids(rows) - {rows[i].id}
  {
    var r := RemoveAt(rows, i);
    forall x | x in Ids(r) ensures x in Ids(rows) - {rows[i].id} {
      var j :| 0 <= j < |r| && r[j].id == x;
      var k := if j < i then j else j + 1;
      assert rows[k].id == x && k != i;
      if k < i { assert rows[k].id != rows[i].id; } else { assert rows[i].id != rows[k].id; }
    }
    forall x | x in Ids(rows) - {rows[i].id} ensures x in Ids(r) {
      var k :| 0 <= k < |rows| && rows[k].id == x;
      var j := if k < i then k else k - 1;
      assert r[j].id == x;
    }
  }

  // ---------------------------------------------------------------------------
  // Dropping a whole group: the delete cascade from a parent row

  /** The rows outside group p, in table order. */
  function Without<D>(rows: seq<Row<D>>, p: int): (r: seq<Row<D>>)
    ensures |r| == |rows| - Count(rows, p)
    ensures forall j :: 0 <= j < |r| ==> r[j] in rows && r[j].parent != p
    ensures forall k :: 0 <= k < |rows| && rows[k].parent != p ==> rows[k] in r
  {
    if rows == [] then []
    else
      var n := |rows| - 1;
      assert rows == rows[..n] + [rows[n]];
      Without(rows[..n], p) + (if rows[n].parent != p then [rows[n]] else [])
  }

  /** Dropping group p leaves no row of p, and every other group's size and word sum as they were. */
  lemma {:induction false} WithoutOtherGroups<D>(rows: seq<Row<D>>, p: int, q: int)
    ensures Count(Without(rows, p), p) == 0
    ensures q != p ==> Count(Without(rows, p), q) == Count(rows, q)
    ensures q != p ==> GroupWords(Without(rows, p), q) == GroupWords(rows, q)
    decreases |rows|
  {
    var r := Without(rows, p);
    CountZero(r, p);
    if rows != [] {
      var n := |rows| - 1;
      WithoutOtherGroups(rows[..n], p, q);
      var tail := if rows[n].parent != p then [rows[n]] else [];
      CountConcat(Without(rows[..n], p), tail, q);
      GroupWordsConcat(Without(rows[..n], p), tail, q);
      if tail != [] {
        assert tail[..0] == [];
      }
    }
  }

  /** Dropping group p keeps every other group's indices distinct. */
  lemma {:induction false} WithoutKeepsDistinct<D>(rows: seq<Row<D>>, p: int, q: int)
    requires Distinct(rows, q)
    ensures Distinct(Without(rows, p), q)
    decreases |rows|
  {
    if rows != [] {
      var n := |rows| - 1;
      var pre := rows[..n];
      assert Distinct(pre, q);
      WithoutKeepsDistinct(pre, p, q);
      var w := Without(pre, p);
      if rows[n].parent != p {
        var r := w + [rows[n]];
        forall j, l | 0 <= j < l < |r| && r[j].parent == q && r[l].parent == q
          ensures r[j].orderIndex != r[l].orderIndex
        {
          if l == |w| {
            assert r[j] == w[j] && w[j] in w;
            var k :| 0 <= k < n && pre[k] == w[j];
            assert rows[k] == w[j] && r[l] == rows[n];
          } else {
            assert r[j] == w[j] && r[l] == w[l];
          }
        }
      } else {
        assert Without(rows, p) == w + [];
      }
    }
  }

  /** Dropping group p keeps every other group dense. */
  lemma WithoutKeepsDense<D>(rows: seq<Row<D>>, p: int, q: int)
    requires q != p && Dense(rows, q)
    ensures Dense(Without(rows, p), q)
  {
    var r := Without(rows, p);
    WithoutOtherGroups(rows, p, q);
    WithoutKeepsDistinct(rows, p, q);
    forall j | 0 <= j < |r| && r[j].parent == q ensures 1 <= r[j].orderIndex <= Count(r, q) {
      assert r[j] in r;
      var k :| 0 <= k < |rows| && rows[k] == r[j];
    }
  }

  /** Dropping group p keeps keys pairwise distinct. */
  lemma {:induction false} WithoutDistinctIds<D>(rows: seq<Row<D>>, p: int)
    requires forall j, l :: 0 <= j < l < |rows| ==> rows[j].id != rows[l].id
    ensures forall j, l :: 0 <= j < l < |Without(rows, p)| ==> Without(rows, p)[j].id != Without(rows, p)[l].id
    decreases |rows|
  {
    var r := Without(rows, p);
    if rows != [] {
      var n := |rows| - 1;
      var pre := rows[..n];
      WithoutDistinctIds(pre, p);
      var w := Without(pre, p);
      if rows[n].parent != p {
        assert r == w + [rows[n]];
        forall j, l | 0 <= j < l < |r| ensures r[j].id != r[l].id {
          if l == |w| {
            assert r[j] == w[j] && w[j] in w;
            var k :| 0 <= k < n && pre[k] == w[j];
            assert rows[k] == w[j];
          } else {
            assert r[j] == w[j] && r[l] == w[l];
          }
        }
      } else {
        assert r == w;
      }
    }
  }

  /** Dropping group p keeps keys unique and issued, and leaves only keys the table had. */
  lemma WithoutKeepsKeys<D>(rows: seq<Row<D>>, p: int, next: int)
    requires UniqueIds(rows)
    ensures UniqueIds(Without(rows, p))
    ensures KeysBelow(rows, next) ==> KeysBelow(Without(rows, p), next)
    ensures Ids(Without(rows, p)) <= Ids(rows)
  {
    var r := Without(rows, p);
    UniqueIdsDistinct(rows);
    WithoutDistinctIds(rows, p);
    DistinctIdsUnique(r);
    forall x | x in Ids(r) ensures x in Ids(rows) {
      var j :| 0 <= j < |r| && r[j].id == x;
      assert r[j] in r;
      var k :| 0 <= k < |rows| && rows[k] == r[j];
    }
    forall j | 0 <= j < |r| ensures exists k :: 0 <= k < |rows| && rows[k] == r[j] {
      assert r[j] in r;
    }
  }
}
