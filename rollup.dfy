/**
 * Word-count rollup as functions on a table: `SUM(word_count)` over a group, how it
 * moves when one row is added, removed or recounted, and the stale project total the
 * scene rollup computes when the session does not flush before querying.
 */
module Rollup {
  import opened Values
  import opened Records
  import opened Ordering

  /** What row r contributes to the sum of group p. */
  function Share<D>(r: Row<D>, p: int): int {
    if r.parent == p then r.wordCount else 0
  }

  /** `SUM(word_count)` over group p, with the empty sum read as 0 (`... or 0`). */
  function GroupWords<D>(rows: seq<Row<D>>, p: int): int {
    if rows == [] then 0
    else GroupWords(rows[..|rows| - 1], p) + Share(rows[|rows| - 1], p)
  }

  /** An empty group sums to 0. */
  lemma {:induction false} GroupWordsEmpty<D>(rows: seq<Row<D>>, p: int)
    requires forall j :: 0 <= j < |rows| ==> rows[j].parent != p
    ensures GroupWords(rows, p) == 0
    decreases |rows|
  {
    if rows != [] {
      GroupWordsEmpty(rows[..|rows| - 1], p);
    }
  }

  /** Counts that are never negative sum to a total that is never negative. */
  lemma {:induction false} GroupWordsNonNegative<D>(rows: seq<Row<D>>, p: int)
    requires forall j :: 0 <= j < |rows| ==> rows[j].wordCount >= 0
    ensures GroupWords(rows, p) >= 0
    decreases |rows|
  {
    if rows != [] {
      GroupWordsNonNegative(rows[..|rows| - 1], p);
    }
  }

  lemma {:induction false} GroupWordsConcat<D>(a: seq<Row<D>>, b: seq<Row<D>>, p: int)
    ensures GroupWords(a + b, p) == GroupWords(a, p) + GroupWords(b, p)
    decreases |b|
  {
    if b == [] {
      assert a + b == a;
    } else {
      var n := |b| - 1;
      assert (a + b)[..|a + b| - 1] == a + b[..n];
      GroupWordsConcat(a, b[..n], p);
    }
  }

  /** Tables that agree on every row's parent and count agree on every group's sum. */
  lemma {:induction false} GroupWordsSameTally<D, E>(a: seq<Row<D>>, b: seq<Row<E>>, p: int)
    requires |a| == |b|
    requires forall j :: 0 <= j < |a| ==> a[j].parent == b[j].parent && a[j].wordCount == b[j].wordCount
    ensures GroupWords(a, p) == GroupWords(b, p)
    decreases |a|
  {
    if a != [] {
      GroupWordsSameTally(a[..|a| - 1], b[..|b| - 1], p);
    }
  }

  /** A new row adds its count to its own group's sum and nothing to the others. */
  lemma GroupWordsAppend<D>(rows: seq<Row<D>>, row: Row<D>, p: int)
    ensures GroupWords(rows + [row], p) == GroupWords(rows, p) + Share(row, p)
  {
    assert (rows + [row])[..|rows|] == rows;
  }

  /** Removing a row takes its count off its own group's sum and leaves the others. */
  lemma GroupWordsRemoveAt<D>(rows: seq<Row<D>>, i: int, p: int)
    requires 0 <= i < |rows|
    ensures GroupWords(RemoveAt(rows, i), p) == GroupWords(rows, p) - Share(rows[i], p)
  {
    assert rows == rows[..i] + ([rows[i]] + rows[i + 1..]);
    GroupWordsConcat(rows[..i], [rows[i]] + rows[i + 1..], p);
    GroupWordsConcat([rows[i]], rows[i + 1..], p);
    GroupWordsConcat(rows[..i], rows[i + 1..], p);
    assert [rows[i]][..0] == [];
  }

  /** Replacing a row moves each group's sum by the difference of the two rows' shares. */
  lemma GroupWordsReplace<D>(rows: seq<Row<D>>, i: int, row: Row<D>, p: int)
    requires 0 <= i < |rows|
    ensures GroupWords(rows[i := row], p) == GroupWords(rows, p) - Share(rows[i], p) + Share(row, p)
  {
    GroupWordsRemoveAt(rows, i, p);
    GroupWordsRemoveAt(rows[i := row], i, p);
    assert RemoveAt(rows[i := row], i) == RemoveAt(rows, i);
  }

  // ---------------------------------------------------------------------------
  // The project total after a chapter's count is reassigned

  /**
   * The project total as the scene rollup computes it when the session does not flush
   * pending changes before a query: the chapter's new count is only assigned in memory,
   * so the SUM reads the chapter's stored, old count.
   */
  function UnflushedProjectTotal(chapters: seq<ChapterRow>, i: int, newCount: int): int
    requires 0 <= i < |chapters|
  {
    GroupWords(chapters, chapters[i].parent)
  }

  /** The project total the rollup means to compute: over the chapters with the new count written. */
  function FlushedProjectTotal(chapters: seq<ChapterRow>, i: int, newCount: int): (total: int)
    requires 0 <= i < |chapters|
    ensures total == GroupWords(chapters, chapters[i].parent) - chapters[i].wordCount + newCount
  {
    GroupWordsReplace(chapters, i, chapters[i].(wordCount := newCount), chapters[i].parent);
    GroupWords(chapters[i := chapters[i].(wordCount := newCount)], chapters[i].parent)
  }

  /** The unflushed total is off by exactly the change in the chapter's count. */
  lemma UnflushedTotalLags(chapters: seq<ChapterRow>, i: int, newCount: int)
    requires 0 <= i < |chapters|
    ensures UnflushedProjectTotal(chapters, i, newCount) ==
      FlushedProjectTotal(chapters, i, newCount) - (newCount - chapters[i].wordCount)
    ensures UnflushedProjectTotal(chapters, i, newCount) == FlushedProjectTotal(chapters, i, newCount)
      <==> newCount == chapters[i].wordCount
  {
  }

  /**
   * A project with one chapter of 2 words gains a 1-word scene: the chapter is recounted
   * to 3, but the unflushed query still sums the stored 2, so the project keeps 2.
   */
  lemma UnflushedTotalIsStale()
    ensures var chapters := [Row(1, 1, 1, 2, ChapterData("Chapter 1", None, false))];
      UnflushedProjectTotal(chapters, 0, 3) == 2 && FlushedProjectTotal(chapters, 0, 3) == 3
  {
    var chapters := [Row(1, 1, 1, 2, ChapterData("Chapter 1", None, false))];
    assert chapters[..0] == [];
  }
}
