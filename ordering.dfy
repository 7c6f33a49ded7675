/**
 * The ordering engine as functions on a table of sibling rows: what the sibling-range
 * updates of create, move and delete do to the order indices, and why they keep every
 * sibling group dense (its indices exactly 1..N).
 */
module Ordering {
  import opened Values
  import opened Records

  /** The number of rows in sibling group p. */
  function Count<D>(rows: seq<Row<D>>, p: int): (n: nat)
    ensures n <= |rows|
  {
    if rows == [] then 0
    else Count(rows[..|rows| - 1], p) + (if rows[|rows| - 1].parent == p then 1 else 0)
  }

  /** A group is empty exactly when no row has that parent. */
  lemma {:induction false} CountZero<D>(rows: seq<Row<D>>, p: int)
    ensures Count(rows, p) == 0 <==> forall j :: 0 <= j < |rows| ==> rows[j].parent != p
    decreases |rows|
  {
    if rows != [] {
      var n := |rows| - 1;
      CountZero(rows[..n], p);
      assert forall j :: 0 <= j < n ==> rows[..n][j] == rows[j];
    }
  }

  /** Every index in group p lies in 1..N, N the size of the group. */
  ghost predicate InRange<D>(rows: seq<Row<D>>, p: int) {
    forall j :: 0 <= j < |rows| && rows[j].parent == p ==> 1 <= rows[j].orderIndex <= Count(rows, p)
  }

  /** No two rows of group p share an index. */
  ghost predicate Distinct<D>(rows: seq<Row<D>>, p: int) {
    forall j, l :: 0 <= j < l < |rows| && rows[j].parent == p && rows[l].parent == p ==>
      rows[j].orderIndex != rows[l].orderIndex
  }

  /** Group p is numbered 1..N without gaps or duplicates. */
  ghost predicate Dense<D>(rows: seq<Row<D>>, p: int) {
    InRange(rows, p) && Distinct(rows, p)
  }

  ghost predicate AllDense<D>(rows: seq<Row<D>>) {
    forall p :: Dense(rows, p)
  }

  /** The set of indices used in group p. */
  function OrderSet<D>(rows: seq<Row<D>>, p: int): set<int> {
    set j | 0 <= j < |rows| && rows[j].parent == p :: rows[j].orderIndex
  }

  /** The set 1..n. */
  function Interval(n: nat): (s: set<int>)
    ensures forall k :: k in s <==> 1 <= k <= n
  {
    if n == 0 then {} else Interval(n - 1) + {n}
  }

  /** `max(order_index)` over group p, absent when the group is empty. */
  function GroupMax<D>(rows: seq<Row<D>>, p: int): (m: Option<int>)
    ensures m.None? <==> Count(rows, p) == 0
    ensures m.Some? ==> m.value in OrderSet(rows, p)
    ensures m.Some? ==> forall j :: 0 <= j < |rows| && rows[j].parent == p ==> rows[j].orderIndex <= m.value
  {
    if rows == [] then None
    else
      var n := |rows| - 1;
      var m := GroupMax(rows[..n], p);
      CountZero(rows[..n], p);
      assert forall j :: 0 <= j < n ==> rows[..n][j] == rows[j];
      if rows[n].parent != p then m
      else if m.Some? && m.value >= rows[n].orderIndex then m
      else Some(rows[n].orderIndex)
  }

  /** The index a new row of group p gets: `(max or 0) + 1`. */
  function NextOrder<D>(rows: seq<Row<D>>, p: int): (n: int)
    ensures Count(rows, p) == 0 ==> n == 1
  {
    GroupMax(rows, p).GetOr(0) + 1
  }

  /** The index a new row gets lies above every index already in its group. */
  lemma NextOrderIsFresh<D>(rows: seq<Row<D>>, p: int)
    ensures forall j :: 0 <= j < |rows| && rows[j].parent == p ==> rows[j].orderIndex < NextOrder(rows, p)
  {
    CountZero(rows, p);
  }

  /** The range filter of a sibling update: `lo <= index <= hi`, or `lo <= index`. */
  datatype Span = Between(lo: int, hi: int) | Above(lo: int) {
    predicate Contains(o: int) {
      match this
      case Between(lo, hi) => lo <= o <= hi
      case Above(lo) => lo <= o
    }
  }

  /** One row after `UPDATE ... SET order_index = order_index + delta WHERE parent = p AND <span>`. */
  function ShiftRow<D>(r: Row<D>, p: int, span: Span, delta: int): Row<D> {
    if r.parent == p && span.Contains(r.orderIndex) then r.(orderIndex := r.orderIndex + delta) else r
  }

  /** The whole table after that update. */
  function Shifted<D>(rows: seq<Row<D>>, p: int, span: Span, delta: int): (r: seq<Row<D>>)
    ensures |r| == |rows|
  {
    seq(|rows|, j requires 0 <= j < |rows| => ShiftRow(rows[j], p, span, delta))
  }

  /** The table without its row at position i. */
  function RemoveAt<T>(rows: seq<T>, i: int): (r: seq<T>)
    requires 0 <= i < |rows|
    ensures |r| == |rows| - 1
    ensures forall j :: 0 <= j < |r| ==> r[j] == rows[if j < i then j else j + 1]
  {
    rows[..i] + rows[i + 1..]
  }

  /**
   * Drag-and-drop move of the row at position i to index `to`: moving down shifts the
   * siblings in (old, to] up by one place, moving up (or staying) shifts those in
   * [to, old) down by one place, then the row takes index `to`. Only order indices change,
   * and only in the row's own group.
   */
  function Moved<D>(rows: seq<Row<D>>, i: int, to: int): (r: seq<Row<D>>)
    requires 0 <= i < |rows|
    ensures |r| == |rows| && r[i].orderIndex == to
    ensures forall j :: 0 <= j < |r| ==> r[j] == rows[j].(orderIndex := r[j].orderIndex)
    ensures forall j :: 0 <= j < |r| && rows[j].parent != rows[i].parent ==> r[j] == rows[j]
  {
    var from, p := rows[i].orderIndex, rows[i].parent;
    var shifted :=
      if to > from then Shifted(rows, p, Between(from + 1, to), -1)
      else Shifted(rows, p, Between(to, from - 1), 1);
    shifted[i := rows[i].(orderIndex := to)]
  }

  /**
   * Hard delete of the row at position i: the row goes, and every sibling after it
   * moves up by one place. Rows of other groups are kept as they were.
   */
  function Closed<D>(rows: seq<Row<D>>, i: int): (r: seq<Row<D>>)
    requires 0 <= i < |rows|
    ensures |r| == |rows| - 1
    ensures forall j :: 0 <= j < |r| ==> r[j] == RemoveAt(rows, i)[j].(orderIndex := r[j].orderIndex)
    ensures forall j :: 0 <= j < |r| && r[j].parent != rows[i].parent ==> r[j] == RemoveAt(rows, i)[j]
  {
    Shifted(RemoveAt(rows, i), rows[i].parent, Above(rows[i].orderIndex + 1), -1)
  }

  // ---------------------------------------------------------------------------
  // Counting

  lemma {:induction false} CountConcat<D>(a: seq<Row<D>>, b: seq<Row<D>>, p: int)
    ensures Count(a + b, p) == Count(a, p) + Count(b, p)
    decreases |b|
  {
    if b == [] {
      assert a + b == a;
    } else {
      var n := |b| - 1;
      assert (a + b)[..|a + b| - 1] == a + b[..n];
      CountConcat(a, b[..n], p);
    }
  }

  /** Two tables whose rows have the same parents, position by position, have the same group sizes. */
  lemma {:induction false} CountSameParents<D, E>(a: seq<Row<D>>, b: seq<Row<E>>, p: int)
    requires |a| == |b| && forall j :: 0 <= j < |a| ==> a[j].parent == b[j].parent
    ensures Count(a, p) == Count(b, p)
    decreases |a|
  {
    if a != [] {
      CountSameParents(a[..|a| - 1], b[..|b| - 1], p);
    }
  }

  lemma CountRemoveAt<D>(rows: seq<Row<D>>, i: int, p: int)
    requires 0 <= i < |rows|
    ensures Count(RemoveAt(rows, i), p) == Count(rows, p) - (if rows[i].parent == p then 1 else 0)
  {
    assert rows == rows[..i] + ([rows[i]] + rows[i + 1..]);
    CountConcat(rows[..i], [rows[i]] + rows[i + 1..], p);
    CountConcat([rows[i]], rows[i + 1..], p);
    CountConcat(rows[..i], rows[i + 1..], p);
    assert [rows[i]][..0] == [];
  }

  lemma CountAppend<D>(rows: seq<Row<D>>, row: Row<D>, p: int)
    ensures Count(rows + [row], p) == Count(rows, p) + (if row.parent == p then 1 else 0)
  {
    assert (rows + [row])[..|rows|] == rows;
  }

  // ---------------------------------------------------------------------------
  // Dense means "exactly 1..N"

  lemma {:induction false} IntervalSize(n: nat)
    ensures |Interval(n)| == n
  {
    if n > 0 {
      var smaller := Interval(n - 1);
      IntervalSize(n - 1);
      assert n !in smaller;
      assert |smaller + {n}| == |smaller| + 1;
    }
  }

  lemma SubsetSize(a: set<int>, b: set<int>)
    requires a <= b
    ensures |a| <= |b|
    ensures |a| == |b| ==> a == b
  {
    assert b == a + (b - a);
    assert a * (b - a) == {};
    if |a| == |b| {
      assert |b - a| == 0;
    }
  }

  lemma OrderSetSnoc<D>(rows: seq<Row<D>>, p: int)
    requires rows != []
    ensures OrderSet(rows, p) ==
      OrderSet(rows[..|rows| - 1], p) + (if rows[|rows| - 1].parent == p then {rows[|rows| - 1].orderIndex} else {})
  {
    var n := |rows| - 1;
    assert forall j :: 0 <= j < n ==> rows[..n][j] == rows[j];
  }

  /** A group has at most as many distinct indices as rows, and exactly as many when no two rows share one. */
  lemma {:induction false} OrderSetSize<D>(rows: seq<Row<D>>, p: int)
    ensures |OrderSet(rows, p)| <= Count(rows, p)
    ensures Distinct(rows, p) ==> |OrderSet(rows, p)| == Count(rows, p)
    decreases |rows|
  {
    if rows != [] {
      var n := |rows| - 1;
      var pre := rows[..n];
      assert forall j :: 0 <= j < n ==> pre[j] == rows[j];
      OrderSetSize(pre, p);
      OrderSetSnoc(rows, p);
      if rows[n].parent == p && Distinct(rows, p) {
        assert Distinct(pre, p);
        assert rows[n].orderIndex !in OrderSet(pre, p);
      }
    }
  }

  /** Two rows of group p sharing an index leave the group fewer distinct indices than rows. */
  lemma SharedIndexLosesOne<D>(rows: seq<Row<D>>, p: int, j: int, l: int)
    requires 0 <= j < l < |rows| && rows[j].parent == p && rows[l].parent == p
    requires rows[j].orderIndex == rows[l].orderIndex
    ensures |OrderSet(rows, p)| < Count(rows, p)
  {
    var rest := RemoveAt(rows, l);
    assert rest[j] == rows[j];
    forall x | x in OrderSet(rows, p) ensures x in OrderSet(rest, p) {
      var k :| 0 <= k < |rows| && rows[k].parent == p && rows[k].orderIndex == x;
      if k < l {
        assert rest[k] == rows[k];
      } else if k > l {
        assert rest[k - 1] == rows[k];
      }
    }
    OrderSetSize(rest, p);
    CountRemoveAt(rows, l, p);
    SubsetSize(OrderSet(rows, p), OrderSet(rest, p));
  }

  lemma DenseImpliesOneToN<D>(rows: seq<Row<D>>, p: int)
    requires Dense(rows, p)
    ensures OrderSet(rows, p) == Interval(Count(rows, p))
  {
    IntervalSize(Count(rows, p));
    OrderSetSize(rows, p);
    SubsetSize(OrderSet(rows, p), Interval(Count(rows, p)));
  }

  lemma OneToNImpliesDense<D>(rows: seq<Row<D>>, p: int)
    requires OrderSet(rows, p) == Interval(Count(rows, p))
    ensures Dense(rows, p)
  {
    IntervalSize(Count(rows, p));
    forall j | 0 <= j < |rows| && rows[j].parent == p
      ensures 1 <= rows[j].orderIndex <= Count(rows, p)
    {
      assert rows[j].orderIndex in OrderSet(rows, p);
    }
    forall j, l | 0 <= j < l < |rows| && rows[j].parent == p && rows[l].parent == p
      ensures rows[j].orderIndex != rows[l].orderIndex
    {
      if rows[j].orderIndex == rows[l].orderIndex {
        SharedIndexLosesOne(rows, p, j, l);
      }
    }
  }

  /** The invariant in its usual form: a group is dense exactly when its indices are the set 1..N. */
  lemma DenseIsOneToN<D>(rows: seq<Row<D>>, p: int)
    ensures Dense(rows, p) <==> OrderSet(rows, p) == Interval(Count(rows, p))
  {
    if Dense(rows, p) {
      DenseImpliesOneToN(rows, p);
    }
    if OrderSet(rows, p) == Interval(Count(rows, p)) {
      OneToNImpliesDense(rows, p);
    }
  }

  /** Appending to a dense group 1..N gives the new row index N+1. */
  lemma NextOrderOfDense<D>(rows: seq<Row<D>>, p: int)
    requires Dense(rows, p)
    ensures NextOrder(rows, p) == Count(rows, p) + 1
  {
    var n := Count(rows, p);
    if n > 0 {
      DenseIsOneToN(rows, p);
      assert n in Interval(n);
      var k :| 0 <= k < |rows| && rows[k].parent == p && rows[k].orderIndex == n;
    }
  }

  // ---------------------------------------------------------------------------
  // Create, move and delete keep every group dense

  /** Create: a row given the next index of its group keeps every group dense. */
  lemma AppendKeepsDense<D>(rows: seq<Row<D>>, row: Row<D>)
    requires AllDense(rows)
    requires row.orderIndex == NextOrder(rows, row.parent)
    ensures AllDense(rows + [row])
    ensures row.orderIndex == Count(rows, row.parent) + 1
  {
    NextOrderOfDense(rows, row.parent);
    var r := rows + [row];
    forall q ensures Dense(r, q) {
      assert Dense(rows, q);
      CountAppend(rows, row, q);
      assert forall j :: 0 <= j < |rows| ==> r[j] == rows[j];
    }
  }

  /** Move: with `1 <= to <= N`, the moved row's own group stays dense. */
  lemma MoveKeepsOwnGroupDense<D>(rows: seq<Row<D>>, i: int, to: int)
    requires 0 <= i < |rows| && Dense(rows, rows[i].parent)
    requires 1 <= to <= Count(rows, rows[i].parent)
    ensures Dense(Moved(rows, i, to), rows[i].parent)
  {
    var p, from := rows[i].parent, rows[i].orderIndex;
    CountSameParents(rows, Moved(rows, i, to), p);
    forall j | 0 <= j < |rows| && j != i && rows[j].parent == p
      ensures rows[j].orderIndex != from
    {
      if j < i { assert rows[j].orderIndex != rows[i].orderIndex; }
      else { assert rows[i].orderIndex != rows[j].orderIndex; }
    }
    MovedIndex(rows, i, to);
    var r := Moved(rows, i, to);
    forall j, l | 0 <= j < l < |r| && r[j].parent == p && r[l].parent == p
      ensures r[j].orderIndex != r[l].orderIndex
    {
      if j != i && l != i {
        assert rows[j].orderIndex != rows[l].orderIndex;
      }
    }
  }

  /** Move: with `1 <= to <= N`, every group stays dense. */
  lemma MoveKeepsDense<D>(rows: seq<Row<D>>, i: int, to: int)
    requires 0 <= i < |rows| && AllDense(rows)
    requires 1 <= to <= Count(rows, rows[i].parent)
    ensures AllDense(Moved(rows, i, to))
  {
    var r := Moved(rows, i, to);
    forall q ensures Dense(r, q) {
      assert Dense(rows, q);
      if q == rows[i].parent {
        MoveKeepsOwnGroupDense(rows, i, to);
      } else {
        CountSameParents(rows, r, q);
      }
    }
  }

  /** Where each sibling of the moved row ends up. */
  lemma MovedIndex<D>(rows: seq<Row<D>>, i: int, to: int)
    requires 0 <= i < |rows|
    ensures forall j :: 0 <= j < |rows| && j != i && rows[j].parent == rows[i].parent ==>
      Moved(rows, i, to)[j].orderIndex ==
        var o, from := rows[j].orderIndex, rows[i].orderIndex;
        if to > from then (if from < o <= to then o - 1 else o)
        else (if to <= o < from then o + 1 else o)
  {
  }

  /** Move: the siblings of the moved row keep their order relative to each other. */
  lemma MoveKeepsRelativeOrder<D>(rows: seq<Row<D>>, i: int, to: int)
    requires 0 <= i < |rows| && Dense(rows, rows[i].parent)
    ensures forall j, l :: (0 <= j < |rows| && 0 <= l < |rows| && j != i && l != i &&
      rows[j].parent == rows[i].parent && rows[l].parent == rows[i].parent) ==>
        (Moved(rows, i, to)[j].orderIndex < Moved(rows, i, to)[l].orderIndex <==> rows[j].orderIndex < rows[l].orderIndex)
  {
    var p, from := rows[i].parent, rows[i].orderIndex;
    forall j | 0 <= j < |rows| && j != i && rows[j].parent == p
      ensures rows[j].orderIndex != from
    {
      if j < i { assert rows[j].orderIndex != rows[i].orderIndex; }
      else { assert rows[i].orderIndex != rows[j].orderIndex; }
    }
    MovedIndex(rows, i, to);
  }

  /** Moving a row to the index it already has changes nothing. */
  lemma MoveInPlaceIsIdentity<D>(rows: seq<Row<D>>, i: int)
    requires 0 <= i < |rows|
    ensures Moved(rows, i, rows[i].orderIndex) == rows
  {
    var r := Moved(rows, i, rows[i].orderIndex);
    MovedIndex(rows, i, rows[i].orderIndex);
    assert forall j :: 0 <= j < |rows| ==> r[j] == rows[j];
  }

  /**
   * Moving the first row of a dense group of N to position N moves every other row of
   * the group up by exactly one place and the row itself to N.
   */
  lemma MoveFirstToLast<D>(rows: seq<Row<D>>, i: int)
    requires 0 <= i < |rows| && Dense(rows, rows[i].parent) && rows[i].orderIndex == 1
    ensures Moved(rows, i, Count(rows, rows[i].parent))[i].orderIndex == Count(rows, rows[i].parent)
    ensures forall j :: 0 <= j < |rows| && j != i && rows[j].parent == rows[i].parent ==>
      Moved(rows, i, Count(rows, rows[i].parent))[j].orderIndex == rows[j].orderIndex - 1
  {
    var p := rows[i].parent;
    forall j | 0 <= j < |rows| && j != i && rows[j].parent == p
      ensures rows[j].orderIndex != 1
    {
      if j < i { assert rows[j].orderIndex != rows[i].orderIndex; }
      else { assert rows[i].orderIndex != rows[j].orderIndex; }
    }
    MovedIndex(rows, i, Count(rows, p));
  }

  /** Where each remaining sibling ends up after a delete. */
  lemma ClosedIndex<D>(rows: seq<Row<D>>, i: int)
    requires 0 <= i < |rows|
    ensures forall j :: 0 <= j < |rows| - 1 && RemoveAt(rows, i)[j].parent == rows[i].parent ==>
      Closed(rows, i)[j].orderIndex ==
        var o := RemoveAt(rows, i)[j].orderIndex;
        if o > rows[i].orderIndex then o - 1 else o
  {
  }

  /** Delete: the deleted row's group shrinks by one, and every other group keeps its size. */
  lemma ClosedCount<D>(rows: seq<Row<D>>, i: int)
    requires 0 <= i < |rows|
    ensures forall q :: Count(Closed(rows, i), q) == Count(rows, q) - (if q == rows[i].parent then 1 else 0)
  {
    forall q ensures Count(Closed(rows, i), q) == Count(rows, q) - (if q == rows[i].parent then 1 else 0) {
      CountRemoveAt(rows, i, q);
      CountSameParents(RemoveAt(rows, i), Closed(rows, i), q);
    }
  }

  /** Delete: the indices of group q stay within 1..N, N the group's new size. */
  lemma ClosedInRange<D>(rows: seq<Row<D>>, i: int, q: int)
    requires 0 <= i < |rows| && Dense(rows, q)
    requires Count(Closed(rows, i), q) == Count(rows, q) - (if q == rows[i].parent then 1 else 0)
    ensures InRange(Closed(rows, i), q)
  {
    var rest, r := RemoveAt(rows, i), Closed(rows, i);
    ClosedIndex(rows, i);
    forall j | 0 <= j < |r| && r[j].parent == q ensures 1 <= r[j].orderIndex <= Count(r, q) {
      var jj := if j < i then j else j + 1;
      assert rest[j] == rows[jj];
      if q == rows[i].parent {
        if jj < i { assert rows[jj].orderIndex != rows[i].orderIndex; }
        else { assert rows[i].orderIndex != rows[jj].orderIndex; }
      }
    }
  }

  /** Delete: no two rows of group q come to share an index. */
  lemma ClosedDistinct<D>(rows: seq<Row<D>>, i: int, q: int)
    requires 0 <= i < |rows| && Dense(rows, q)
    ensures Distinct(Closed(rows, i), q)
  {
    var rest, r := RemoveAt(rows, i), Closed(rows, i);
    ClosedIndex(rows, i);
    forall j, l | 0 <= j < l < |r| && r[j].parent == q && r[l].parent == q
      ensures r[j].orderIndex != r[l].orderIndex
    {
      var jj, ll := if j < i then j else j + 1, if l < i then l else l + 1;
      assert rest[j] == rows[jj] && rest[l] == rows[ll];
      assert rows[jj].orderIndex != rows[ll].orderIndex;
      if q == rows[i].parent {
        if jj < i { assert rows[jj].orderIndex != rows[i].orderIndex; }
        else { assert rows[i].orderIndex != rows[jj].orderIndex; }
        if ll < i { assert rows[ll].orderIndex != rows[i].orderIndex; }
        else { assert rows[i].orderIndex != rows[ll].orderIndex; }
      }
    }
  }

  /** Delete: every group stays dense, and the deleted row's group shrinks by one. */
  lemma DeleteKeepsDense<D>(rows: seq<Row<D>>, i: int)
    requires 0 <= i < |rows| && AllDense(rows)
    ensures AllDense(Closed(rows, i))
    ensures forall q :: Count(Closed(rows, i), q) == Count(rows, q) - (if q == rows[i].parent then 1 else 0)
  {
    ClosedCount(rows, i);
    forall q ensures Dense(Closed(rows, i), q) {
      ClosedInRange(rows, i, q);
      ClosedDistinct(rows, i, q);
    }
  }

  /** Delete: the remaining siblings keep their order relative to each other. */
  lemma DeleteKeepsRelativeOrder<D>(rows: seq<Row<D>>, i: int)
    requires 0 <= i < |rows| && Dense(rows, rows[i].parent)
    ensures forall j, l :: (0 <= j < |rows| - 1 && 0 <= l < |rows| - 1 &&
      RemoveAt(rows, i)[j].parent == rows[i].parent && RemoveAt(rows, i)[l].parent == rows[i].parent) ==>
        (Closed(rows, i)[j].orderIndex < Closed(rows, i)[l].orderIndex <==>
         RemoveAt(rows, i)[j].orderIndex < RemoveAt(rows, i)[l].orderIndex)
  {
    var rest := RemoveAt(rows, i);
    forall j | 0 <= j < |rest| && rest[j].parent == rows[i].parent
      ensures rest[j].orderIndex != rows[i].orderIndex
    {
      var jj := if j < i then j else j + 1;
      assert rest[j] == rows[jj];
      if jj < i { assert rows[jj].orderIndex != rows[i].orderIndex; }
      else { assert rows[i].orderIndex != rows[jj].orderIndex; }
    }
    ClosedIndex(rows, i);
  }

}
