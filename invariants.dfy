/**
 * What it means for the three tables to be well formed and for the derived word counts
 * to be exact, and, operation by operation, why each change the store makes keeps them so.
 * Everything here is about table values; the store object applies these changes in place.
 */
module Invariants {
  import opened Values
  import opened Words
  import opened Records
  import opened Ordering
  import opened Rollup
  import opened Tables

  // ---------------------------------------------------------------------------
  // The project table

  function ProjectIds(projects: seq<Project>): set<int> {
    set k | 0 <= k < |projects| :: projects[k].id
  }

  /** The position of the first project with key id, or -1. */
  function ProjectIndex(projects: seq<Project>, id: int): (k: int)
    ensures -1 <= k < |projects|
    ensures 0 <= k ==> projects[k].id == id
  {
    ProjectIndexFromFirst(projects, id, 0);
    ProjectIndexFrom(projects, id, 0)
  }

  /** The position of the first project with key id at or after position from, or -1. */
  function ProjectIndexFrom(projects: seq<Project>, id: int, from: nat): (k: int)
    requires from <= |projects|
    ensures -1 <= k < |projects|
    ensures 0 <= k ==> from <= k
    decreases |projects| - from
  {
    if from == |projects| then -1
    else if projects[from].id == id then from
    else ProjectIndexFrom(projects, id, from + 1)
  }

  /** The scan from position from finds the first project there with the key, and -1 exactly when there is none. */
  lemma {:induction false} ProjectIndexFromFirst(projects: seq<Project>, id: int, from: nat)
    requires from <= |projects|
    ensures forall j :: from <= j < ProjectIndexFrom(projects, id, from) ==> projects[j].id != id
    ensures 0 <= ProjectIndexFrom(projects, id, from) ==> projects[ProjectIndexFrom(projects, id, from)].id == id
    ensures ProjectIndexFrom(projects, id, from) == -1 <==> forall j :: from <= j < |projects| ==> projects[j].id != id
    decreases |projects| - from
  {
    if from < |projects| && projects[from].id != id {
      ProjectIndexFromFirst(projects, id, from + 1);
    }
  }

  /** The lookup finds the first project with the key, and reports -1 exactly when none has it. */
  lemma ProjectIndexFirst(projects: seq<Project>, id: int)
    ensures forall j :: 0 <= j < ProjectIndex(projects, id) ==> projects[j].id != id
    ensures ProjectIndex(projects, id) == -1 <==> forall j :: 0 <= j < |projects| ==> projects[j].id != id
  {
    ProjectIndexFromFirst(projects, id, 0);
  }

  /** A project with the key and none before it is the one the lookup finds. */
  lemma ProjectIndexAt(projects: seq<Project>, id: int, k: int)
    requires 0 <= k < |projects| && projects[k].id == id
    requires forall j :: 0 <= j < k ==> projects[j].id != id
    ensures ProjectIndex(projects, id) == k
  {
    ProjectIndexFirst(projects, id);
  }

  /** A key is present exactly when the lookup finds it. */
  lemma ProjectIdsAndIndex(projects: seq<Project>, id: int)
    ensures id in ProjectIds(projects) <==> ProjectIndex(projects, id) >= 0
  {
    ProjectIndexFirst(projects, id);
    if id in ProjectIds(projects) {
      var j :| 0 <= j < |projects| && projects[j].id == id;
    }
  }

  /**
   * Project keys were issued by the counter and are unique: every project is the one a
   * lookup by its own key finds.
   */
  ghost predicate ProjectKeys(projects: seq<Project>, next: int) {
    && next >= 1
    && (forall k :: 0 <= k < |projects| ==> 1 <= projects[k].id < next)
    && ProjectUnique(projects)
  }

  /** No two projects share a key: every project is the one a lookup by its own key finds. */
  ghost predicate ProjectUnique(projects: seq<Project>) {
    forall k :: 0 <= k < |projects| ==> ProjectIndex(projects, projects[k].id) == k
  }

  /** Issued keys that differ pairwise satisfy the key invariant. */
  lemma DistinctProjectKeys(projects: seq<Project>, next: int)
    requires next >= 1 && forall k :: 0 <= k < |projects| ==> 1 <= projects[k].id < next
    requires forall k, l :: 0 <= k < l < |projects| ==> projects[k].id != projects[l].id
    ensures ProjectKeys(projects, next)
  {
    forall k | 0 <= k < |projects| ensures ProjectIndex(projects, projects[k].id) == k {
      ProjectIndexAt(projects, projects[k].id, k);
    }
  }

  /**
   * `get_all`: every project in table order, or only the active ones. Nothing is
   * invented, nothing matching is dropped, and with no filter the whole table comes back.
   */
  function Listed(projects: seq<Project>, activeOnly: bool): (r: seq<Project>)
    ensures |r| <= |projects|
    ensures forall j :: 0 <= j < |r| ==> r[j] in projects && (activeOnly ==> r[j].isActive)
    ensures forall k :: 0 <= k < |projects| && (!activeOnly || projects[k].isActive) ==> projects[k] in r
    ensures !activeOnly ==> r == projects
  {
    if projects == [] then []
    else
      var n := |projects| - 1;
      assert projects == projects[..n] + [projects[n]];
      Listed(projects[..n], activeOnly) + (if !activeOnly || projects[n].isActive then [projects[n]] else [])
  }

  /**
   * Each project is listed as many times as it occurs in the table when it passes the
   * filter, and not at all otherwise: nothing is listed twice.
   */
  lemma {:induction false} ListedCounts(projects: seq<Project>, activeOnly: bool, x: Project)
    ensures multiset(Listed(projects, activeOnly))[x] ==
      if !activeOnly || x.isActive then multiset(projects)[x] else 0
    decreases |projects|
  {
    if projects != [] {
      var n := |projects| - 1;
      assert projects == projects[..n] + [projects[n]];
      ListedCounts(projects[..n], activeOnly, x);
    }
  }

  /** The listing keeps table order: listing two tables one after the other lists each in turn. */
  lemma {:induction false} ListedConcat(a: seq<Project>, b: seq<Project>, activeOnly: bool)
    ensures Listed(a + b, activeOnly) == Listed(a, activeOnly) + Listed(b, activeOnly)
    decreases |b|
  {
    if b == [] {
      assert a + b == a;
    } else {
      var n := |b| - 1;
      assert (a + b)[..|a + b| - 1] == a + b[..n];
      assert (a + b)[|a + b| - 1] == b[n];
      ListedConcat(a, b[..n], activeOnly);
    }
  }

  /**
   * The project table after `current_word_count` of project pid is set to total: the row
   * set is the first one with that key, the one a `filter(id == pid).first()` query loads;
   * a missing key changes nothing.
   */
  function WithTotal(projects: seq<Project>, pid: int, total: int): (r: seq<Project>)
    ensures |r| == |projects|
  {
    var k := ProjectIndex(projects, pid);
    if k < 0 then projects else projects[k := projects[k].(currentWordCount := total)]
  }

  // ---------------------------------------------------------------------------
  // The invariants

  /** A table's keys are unique and were issued by its counter. */
  ghost predicate TableKeys<D>(rows: seq<Row<D>>, next: int) {
    next >= 1 && UniqueIds(rows) && KeysBelow(rows, next)
  }

  /** Every row's parent is one of the given keys (the foreign-key constraint). */
  ghost predicate Owned<D>(rows: seq<Row<D>>, parents: set<int>) {
    forall j :: 0 <= j < |rows| ==> rows[j].parent in parents
  }

  /** Every scene's stored count is the number of words in its content. */
  ghost predicate Counted(scenes: seq<SceneRow>) {
    forall j :: 0 <= j < |scenes| ==> scenes[j].wordCount == ContentWords(scenes[j].data.content)
  }

  /**
   * The tables are well formed: keys unique, every chapter in an existing project and
   * every scene in an existing chapter, every sibling group numbered 1..N, and every
   * scene's count matching its content.
   */
  ghost predicate Wellformed(projects: seq<Project>, chapters: seq<ChapterRow>, scenes: seq<SceneRow>,
                             nextProject: int, nextChapter: int, nextScene: int) {
    && ProjectKeys(projects, nextProject)
    && TableKeys(chapters, nextChapter)
    && TableKeys(scenes, nextScene)
    && Owned(chapters, ProjectIds(projects))
    && Owned(scenes, Ids(chapters))
    && AllDense(chapters) && AllDense(scenes)
    && Counted(scenes)
  }

  /** Every chapter's count is the sum of its scenes' counts. */
  ghost predicate ChaptersTallied(chapters: seq<ChapterRow>, scenes: seq<SceneRow>) {
    forall j :: 0 <= j < |chapters| ==> chapters[j].wordCount == GroupWords(scenes, chapters[j].id)
  }

  ghost predicate ProjectTallied(p: Project, chapters: seq<ChapterRow>) {
    p.currentWordCount == GroupWords(chapters, p.id)
  }

  /** Every project's total is the sum of its chapters' counts. */
  ghost predicate ProjectsTallied(projects: seq<Project>, chapters: seq<ChapterRow>) {
    forall k :: 0 <= k < |projects| ==> ProjectTallied(projects[k], chapters)
  }

  /** The derived counts are exact. */
  ghost predicate Exact(projects: seq<Project>, chapters: seq<ChapterRow>, scenes: seq<SceneRow>) {
    ChaptersTallied(chapters, scenes) && ProjectsTallied(projects, chapters)
  }

  // ---------------------------------------------------------------------------
  // The rollup

  /** The chapter table after chapter cid's count is set to the sum of its scenes' counts. */
  function RecountChapter(chapters: seq<ChapterRow>, scenes: seq<SceneRow>, cid: int): (r: seq<ChapterRow>)
    ensures |r| == |chapters|
  {
    var i := IndexOf(chapters, cid);
    if i < 0 then chapters else chapters[i := chapters[i].(wordCount := GroupWords(scenes, cid))]
  }

  /** The project table after the total of chapter cid's project is set to the sum of its chapters' counts. */
  function RecountOwner(projects: seq<Project>, chapters: seq<ChapterRow>, cid: int): (r: seq<Project>)
    ensures |r| == |projects|
  {
    var i := IndexOf(chapters, cid);
    if i < 0 then projects else WithTotal(projects, chapters[i].parent, GroupWords(chapters, chapters[i].parent))
  }

  /** The chapter table with the count of the chapter at position i moved by delta. */
  function ShiftCount(chapters: seq<ChapterRow>, i: int, delta: int): seq<ChapterRow>
    requires 0 <= i < |chapters|
  {
    chapters[i := chapters[i].(wordCount := chapters[i].wordCount + delta)]
  }

  /**
   * What the rollup does after one scene of chapter cid went from `was` words to `now`
   * (a new scene from 0, a deleted one to 0): that chapter's count and its project's total
   * both move by the difference, and every other chapter and project is as it was.
   */
  ghost predicate RolledUp(c0: seq<ChapterRow>, p0: seq<Project>, c1: seq<ChapterRow>, p1: seq<Project>,
                           cid: int, was: int, now: int) {
    var delta := now - was;
    var i := IndexOf(c0, cid);
    && 0 <= i
    && |c1| == |c0|
    && (forall j :: 0 <= j < |c0| && j != i ==> c1[j] == c0[j])
    && c1[i] == c0[i].(wordCount := c0[i].wordCount + delta)
    && TotalShifted(p0, p1, c0[i].parent, delta)
  }

  /**
   * The total of project pid (the first with that key, as a lookup finds it) moved by
   * delta, and every other project is as it was; a missing key changes nothing.
   */
  ghost predicate TotalShifted(p0: seq<Project>, p1: seq<Project>, pid: int, delta: int) {
    var k := ProjectIndex(p0, pid);
    && |p1| == |p0|
    && (forall j :: 0 <= j < |p0| && j != k ==> p1[j] == p0[j])
    && (0 <= k ==> p1[k] == p0[k].(currentWordCount := p0[k].currentWordCount + delta))
  }

  // ---------------------------------------------------------------------------
  // Building blocks

  /** A project with a fresh key appended keeps the key invariant and adds exactly its key. */
  lemma ProjectAppend(projects: seq<Project>, p: Project, next: int)
    requires ProjectKeys(projects, next) && p.id == next
    ensures ProjectKeys(projects + [p], next + 1)
    ensures ProjectIds(projects + [p]) == ProjectIds(projects) + {p.id}
    ensures forall x :: x in ProjectIds(projects) ==> x < next
  {
    var r := projects + [p];
    forall k | 0 <= k < |r| ensures ProjectIndex(r, r[k].id) == k {
      ProjectIndexAt(r, r[k].id, k);
    }
    forall x | x in ProjectIds(r) ensures x in ProjectIds(projects) + {p.id} {
      var k :| 0 <= k < |r| && r[k].id == x;
      if k < |projects| { assert projects[k].id == x; }
    }
    forall x | x in ProjectIds(projects) + {p.id} ensures x in ProjectIds(r) {
      if x == p.id {
        assert r[|projects|].id == x;
      } else {
        var k :| 0 <= k < |projects| && projects[k].id == x;
        assert r[k].id == x;
      }
    }
  }

  /** A project table with the same keys in the same places keeps the key invariant, the key set and every lookup. */
  lemma ProjectSameKeys(a: seq<Project>, b: seq<Project>, next: int)
    requires ProjectKeys(a, next) && |a| == |b|
    requires forall k :: 0 <= k < |a| ==> a[k].id == b[k].id
    ensures ProjectKeys(b, next) && ProjectIds(b) == ProjectIds(a)
    ensures forall id :: ProjectIndex(b, id) == ProjectIndex(a, id)
  {
    forall id ensures ProjectIndex(b, id) == ProjectIndex(a, id) {
      ProjectIndexFirst(a, id);
      ProjectIndexFirst(b, id);
      var i := ProjectIndex(a, id);
      if i >= 0 {
        ProjectIndexAt(b, id, i);
      }
    }
    forall x | x in ProjectIds(a) ensures x in ProjectIds(b) {
      var j :| 0 <= j < |a| && a[j].id == x;
      assert b[j].id == x;
    }
  }

  /** Rewriting one project in place, keeping its key, keeps the key invariant and the key set. */
  lemma ProjectReplace(projects: seq<Project>, k: int, p: Project, next: int)
    requires ProjectKeys(projects, next) && 0 <= k < |projects| && p.id == projects[k].id
    ensures ProjectKeys(projects[k := p], next)
    ensures ProjectIds(projects[k := p]) == ProjectIds(projects)
  {
    ProjectSameKeys(projects, projects[k := p], next);
  }

  /** Setting a total keeps the key invariant and the key set. */
  lemma WithTotalKeys(projects: seq<Project>, pid: int, total: int, next: int)
    requires ProjectKeys(projects, next)
    ensures ProjectKeys(WithTotal(projects, pid, total), next)
    ensures ProjectIds(WithTotal(projects, pid, total)) == ProjectIds(projects)
  {
    ProjectSameKeys(projects, WithTotal(projects, pid, total), next);
  }

  /** Under unique keys, setting the total of the project found sets it for every project with key pid and for no other. */
  lemma WithTotalById(projects: seq<Project>, pid: int, total: int)
    requires ProjectUnique(projects)
    ensures forall j :: 0 <= j < |projects| ==>
      WithTotal(projects, pid, total)[j] ==
        if projects[j].id == pid then projects[j].(currentWordCount := total) else projects[j]
  {
    forall j | 0 <= j < |projects| && projects[j].id == pid ensures ProjectIndex(projects, pid) == j {
    }
  }

  /** A key the counter has not issued yet owns no rows. */
  lemma FreshKeyOwnsNothing<D>(rows: seq<Row<D>>, parents: set<int>, next: int)
    requires Owned(rows, parents) && forall x :: x in parents ==> x < next
    ensures Count(rows, next) == 0 && GroupWords(rows, next) == 0
  {
    CountZero(rows, next);
    GroupWordsEmpty(rows, next);
  }

  lemma IdsBelow<D>(rows: seq<Row<D>>, next: int)
    requires KeysBelow(rows, next)
    ensures forall x :: x in Ids(rows) ==> x < next
  {
  }

  /** Keeping every row's key and parent keeps keys and foreign keys, and every lookup. */
  lemma SameLayoutButOrder<D>(a: seq<Row<D>>, b: seq<Row<D>>, parents: set<int>, next: int)
    requires |a| == |b|
    requires forall j :: 0 <= j < |a| ==> a[j].id == b[j].id && a[j].parent == b[j].parent
    requires TableKeys(a, next) && Owned(a, parents)
    ensures TableKeys(b, next) && Owned(b, parents)
    ensures Ids(b) == Ids(a) && forall id :: IndexOf(b, id) == IndexOf(a, id)
  {
    SameKeysKeepLookups(a, b, next);
  }

  /** Keeping every row's parent and index keeps every group dense. */
  lemma SameOrderKeepsDense<D>(a: seq<Row<D>>, b: seq<Row<D>>)
    requires |a| == |b| && AllDense(a)
    requires forall j :: 0 <= j < |a| ==> a[j].parent == b[j].parent && a[j].orderIndex == b[j].orderIndex
    ensures AllDense(b)
  {
    forall q ensures Dense(b, q) {
      CountSameParents(a, b, q);
      assert Dense(a, q);
    }
  }

  /** Changes that keep every chapter's parent and count keep the project totals exact. */
  lemma ProjectsStayTallied(projects: seq<Project>, c0: seq<ChapterRow>, c1: seq<ChapterRow>)
    requires ProjectsTallied(projects, c0)
    requires |c0| == |c1|
    requires forall j :: 0 <= j < |c0| ==> c0[j].parent == c1[j].parent && c0[j].wordCount == c1[j].wordCount
    ensures ProjectsTallied(projects, c1)
  {
    forall k | 0 <= k < |projects| ensures ProjectTallied(projects[k], c1) {
      GroupWordsSameTally(c0, c1, projects[k].id);
    }
  }

  /** Recomputing project pid's total after a change that moved only pid's sum makes every total exact. */
  lemma ProjectRecount(projects: seq<Project>, c0: seq<ChapterRow>, c1: seq<ChapterRow>, pid: int)
    requires ProjectUnique(projects) && ProjectsTallied(projects, c0)
    requires forall q :: q != pid ==> GroupWords(c1, q) == GroupWords(c0, q)
    ensures ProjectsTallied(WithTotal(projects, pid, GroupWords(c1, pid)), c1)
  {
    var r := WithTotal(projects, pid, GroupWords(c1, pid));
    var found := ProjectIndex(projects, pid);
    forall k | 0 <= k < |r| ensures ProjectTallied(r[k], c1) {
      if k != found {
        assert ProjectIndex(projects, projects[k].id) == k;
        assert r[k] == projects[k] && projects[k].id != pid;
        assert ProjectTallied(projects[k], c0);
      }
    }
  }

  /** Totals derived from non-negative scene counts are non-negative. */
  lemma TotalsNonNegative(projects: seq<Project>, chapters: seq<ChapterRow>, scenes: seq<SceneRow>)
    requires Counted(scenes) && Exact(projects, chapters, scenes)
    ensures forall j :: 0 <= j < |chapters| ==> chapters[j].wordCount >= 0
    ensures forall k :: 0 <= k < |projects| ==> projects[k].currentWordCount >= 0
  {
    forall q ensures GroupWords(scenes, q) >= 0 {
      GroupWordsNonNegative(scenes, q);
    }
    forall q ensures GroupWords(chapters, q) >= 0 {
      GroupWordsNonNegative(chapters, q);
    }
  }

  // ---------------------------------------------------------------------------
  // Projects

  /** A new project with a fresh key and no words keeps the tables well formed and the counts exact. */
  lemma NewProjectKeeps(ps: seq<Project>, cs: seq<ChapterRow>, ss: seq<SceneRow>, np: int, nc: int, ns: int, p: Project,
                        np1: int)
    requires Wellformed(ps, cs, ss, np, nc, ns) && Exact(ps, cs, ss)
    requires p.id == np && p.currentWordCount == 0
    requires np1 == np + 1
    ensures Wellformed(ps + [p], cs, ss, np1, nc, ns) && Exact(ps + [p], cs, ss)
    ensures p.id !in ProjectIds(ps)
  {
    ProjectAppend(ps, p, np);
    FreshKeyOwnsNothing(cs, ProjectIds(ps), np);
    var r := ps + [p];
    forall k | 0 <= k < |r| ensures ProjectTallied(r[k], cs) {
      if k < |ps| { assert r[k] == ps[k]; }
    }
  }

  /** Rewriting a project in place, keeping its key and its total, keeps everything. */
  lemma ProjectRewriteKeeps(ps: seq<Project>, cs: seq<ChapterRow>, ss: seq<SceneRow>, np: int, nc: int, ns: int,
                            k: int, p: Project)
    requires Wellformed(ps, cs, ss, np, nc, ns) && Exact(ps, cs, ss)
    requires 0 <= k < |ps| && p.id == ps[k].id && p.currentWordCount == ps[k].currentWordCount
    ensures Wellformed(ps[k := p], cs, ss, np, nc, ns) && Exact(ps[k := p], cs, ss)
  {
    ProjectReplace(ps, k, p, np);
  }

  /** A soft-deleted project is absent from the active listing. */
  lemma InactiveNotListed(projects: seq<Project>, id: int, next: int)
    requires ProjectKeys(projects, next)
    requires forall k :: 0 <= k < |projects| && projects[k].id == id ==> !projects[k].isActive
    ensures forall j :: 0 <= j < |Listed(projects, true)| ==> Listed(projects, true)[j].id != id
  {
    var r := Listed(projects, true);
    forall j | 0 <= j < |r| ensures r[j].id != id {
      var l :| 0 <= l < |projects| && projects[l] == r[j];
    }
  }

  // ---------------------------------------------------------------------------
  // Chapters

  /** A new chapter, last in an existing project, with a fresh key and no words, keeps everything. */
  lemma NewChapterKeeps(ps: seq<Project>, cs: seq<ChapterRow>, ss: seq<SceneRow>, np: int, nc: int, ns: int,
                        c: ChapterRow, nc1: int)
    requires Wellformed(ps, cs, ss, np, nc, ns) && Exact(ps, cs, ss)
    requires c.id == nc && c.parent in ProjectIds(ps) && c.orderIndex == NextOrder(cs, c.parent) && c.wordCount == 0
    requires nc1 == nc + 1
    ensures Wellformed(ps, cs + [c], ss, np, nc1, ns) && Exact(ps, cs + [c], ss)
    ensures c.orderIndex == Count(cs, c.parent) + 1 && c.id !in Ids(cs)
  {
    AppendKeepsDense(cs, c);
    AppendFreshKey(cs, c, nc);
    IdsBelow(cs, nc);
    FreshKeyOwnsNothing(ss, Ids(cs), nc);
    var r := cs + [c];
    forall k | 0 <= k < |ps| ensures ProjectTallied(ps[k], r) {
      GroupWordsAppend(cs, c, ps[k].id);
    }
    forall j | 0 <= j < |r| ensures r[j].parent in ProjectIds(ps) && r[j].wordCount == GroupWords(ss, r[j].id) {
      if j < |cs| { assert r[j] == cs[j]; }
    }
  }

  /**
   * Rewriting chapters in place, keeping keys, parents and counts, keeps everything when
   * the order stays dense (a move, or an update of the descriptive fields).
   */
  lemma ChapterRewriteKeeps(ps: seq<Project>, cs: seq<ChapterRow>, cs1: seq<ChapterRow>, ss: seq<SceneRow>,
                            np: int, nc: int, ns: int)
    requires Wellformed(ps, cs, ss, np, nc, ns) && Exact(ps, cs, ss)
    requires |cs1| == |cs| && AllDense(cs1)
    requires forall j :: 0 <= j < |cs| ==>
      cs1[j].id == cs[j].id && cs1[j].parent == cs[j].parent && cs1[j].wordCount == cs[j].wordCount
    ensures Wellformed(ps, cs1, ss, np, nc, ns) && Exact(ps, cs1, ss)
  {
    SameLayoutButOrder(cs, cs1, ProjectIds(ps), nc);
    ProjectsStayTallied(ps, cs, cs1);
  }

  /**
   * Hard delete of the row at position i with the gap closed: keys stay unique and issued,
   * foreign keys stay valid, every group stays dense, and exactly the row's key goes.
   */
  lemma ClosedRowsKeep<D>(rows: seq<Row<D>>, i: int, parents: set<int>, next: int)
    requires 0 <= i < |rows| && TableKeys(rows, next) && Owned(rows, parents) && AllDense(rows)
    ensures TableKeys(Closed(rows, i), next) && Owned(Closed(rows, i), parents) && AllDense(Closed(rows, i))
    ensures Ids(Closed(rows, i)) == Ids(rows) - {rows[i].id}
  {
    var rest := RemoveAt(rows, i);
    var closed := Closed(rows, i);
    DeleteKeepsDense(rows, i);
    RemoveAtKeys(rows, i, next);
    SameKeysKeepLookups(rest, closed, next);
    forall j | 0 <= j < |closed| ensures closed[j].parent in parents {
      assert rest[j] == rows[if j < i then j else j + 1];
    }
  }

  /** A hard delete takes the row's count off its own group's sum and leaves the others. */
  lemma ClosedSums<D>(rows: seq<Row<D>>, i: int)
    requires 0 <= i < |rows|
    ensures forall q :: GroupWords(Closed(rows, i), q) == GroupWords(rows, q) - Share(rows[i], q)
  {
    forall q ensures GroupWords(Closed(rows, i), q) == GroupWords(rows, q) - Share(rows[i], q) {
      GroupWordsSameTally(RemoveAt(rows, i), Closed(rows, i), q);
      GroupWordsRemoveAt(rows, i, q);
    }
  }

  /**
   * The delete cascade on the scene table: dropping every scene of chapter `gone` keeps
   * keys, order and counts, leaves no scene pointing at `gone`, and every other chapter's
   * sum as it was.
   */
  lemma CascadeKeeps(ss: seq<SceneRow>, ns: int, parents: set<int>, gone: int)
    requires TableKeys(ss, ns) && Owned(ss, parents) && AllDense(ss) && Counted(ss)
    ensures TableKeys(Without(ss, gone), ns) && Owned(Without(ss, gone), parents - {gone})
    ensures AllDense(Without(ss, gone)) && Counted(Without(ss, gone))
    ensures forall q :: q != gone ==> GroupWords(Without(ss, gone), q) == GroupWords(ss, q)
  {
    var kept := Without(ss, gone);
    WithoutKeepsKeys(ss, gone, ns);
    forall q ensures Dense(kept, q) && (q != gone ==> GroupWords(kept, q) == GroupWords(ss, q)) {
      WithoutOtherGroups(ss, gone, q);
      if q != gone {
        WithoutKeepsDense(ss, gone, q);
      } else {
        CountZero(kept, gone);
      }
    }
    forall j | 0 <= j < |kept| ensures kept[j].parent in parents - {gone} {
      assert kept[j] in ss;
    }
    forall j | 0 <= j < |kept| ensures kept[j].wordCount == ContentWords(kept[j].data.content) {
      assert kept[j] in ss;
    }
  }

  /** After a chapter and its scenes go, every remaining chapter's count is still the sum of its scenes. */
  lemma CascadeTallied(cs: seq<ChapterRow>, ss: seq<SceneRow>, i: int)
    requires 0 <= i < |cs| && UniqueIds(cs) && ChaptersTallied(cs, ss)
    ensures ChaptersTallied(Closed(cs, i), Without(ss, cs[i].id))
  {
    var closed := Closed(cs, i);
    forall j | 0 <= j < |closed| ensures closed[j].wordCount == GroupWords(Without(ss, cs[i].id), closed[j].id) {
      var k := if j < i then j else j + 1;
      assert closed[j].id == cs[k].id && closed[j].wordCount == cs[k].wordCount && k != i;
      WithoutOtherGroups(ss, cs[i].id, cs[k].id);
    }
  }

  /**
   * Deleting the chapter at position i, closing the gap and cascading to its scenes, keeps
   * the tables well formed.
   */
  lemma DropChapterKeeps(ps: seq<Project>, cs: seq<ChapterRow>, ss: seq<SceneRow>, np: int, nc: int, ns: int, i: int)
    requires Wellformed(ps, cs, ss, np, nc, ns) && Exact(ps, cs, ss) && 0 <= i < |cs|
    ensures Wellformed(ps, Closed(cs, i), Without(ss, cs[i].id), np, nc, ns)
  {
    ClosedRowsKeep(cs, i, ProjectIds(ps), nc);
    CascadeKeeps(ss, ns, Ids(cs), cs[i].id);
  }

  /**
   * After a chapter delete, recomputing the owning project's total makes every count
   * exact again, and that total drops by exactly the deleted chapter's count.
   */
  lemma DeleteChapterTallies(ps: seq<Project>, cs: seq<ChapterRow>, ss: seq<SceneRow>, p1: seq<Project>, i: int)
    requires ProjectUnique(ps) && UniqueIds(cs) && Exact(ps, cs, ss) && 0 <= i < |cs|
    requires p1 == WithTotal(ps, cs[i].parent, GroupWords(Closed(cs, i), cs[i].parent))
    ensures Exact(p1, Closed(cs, i), Without(ss, cs[i].id))
    ensures GroupWords(Closed(cs, i), cs[i].parent) == GroupWords(cs, cs[i].parent) - cs[i].wordCount
  {
    CascadeTallied(cs, ss, i);
    ClosedSums(cs, i);
    ProjectRecount(ps, cs, Closed(cs, i), cs[i].parent);
  }

  // ---------------------------------------------------------------------------
  // Scenes

  /** A new scene, last in an existing chapter, with a fresh key and its content's count, keeps the tables well formed. */
  lemma NewSceneKeeps(ps: seq<Project>, cs: seq<ChapterRow>, ss: seq<SceneRow>, np: int, nc: int, ns: int,
                      s: SceneRow, ns1: int)
    requires Wellformed(ps, cs, ss, np, nc, ns)
    requires s.id == ns && s.parent in Ids(cs) && s.orderIndex == NextOrder(ss, s.parent)
    requires s.wordCount == ContentWords(s.data.content)
    requires ns1 == ns + 1
    ensures Wellformed(ps, cs, ss + [s], np, nc, ns1)
    ensures s.orderIndex == Count(ss, s.parent) + 1 && s.id !in Ids(ss)
  {
    AppendKeepsDense(ss, s);
    AppendFreshKey(ss, s, ns);
    var r := ss + [s];
    forall j | 0 <= j < |r| ensures r[j].parent in Ids(cs) && r[j].wordCount == ContentWords(r[j].data.content) {
      if j < |ss| { assert r[j] == ss[j]; }
    }
  }

  /** Rewriting scenes in place, keeping keys and parents, keeps the tables well formed when order and counts stay right. */
  lemma SceneRewriteKeeps(ps: seq<Project>, cs: seq<ChapterRow>, ss: seq<SceneRow>, ss1: seq<SceneRow>,
                          np: int, nc: int, ns: int)
    requires Wellformed(ps, cs, ss, np, nc, ns)
    requires |ss1| == |ss| && AllDense(ss1) && Counted(ss1)
    requires forall j :: 0 <= j < |ss| ==> ss1[j].id == ss[j].id && ss1[j].parent == ss[j].parent
    ensures Wellformed(ps, cs, ss1, np, nc, ns)
  {
    SameLayoutButOrder(ss, ss1, Ids(cs), ns);
  }

  /** Moving a scene within its chapter keeps the tables well formed and every count exact. */
  lemma MoveSceneKeeps(ps: seq<Project>, cs: seq<ChapterRow>, ss: seq<SceneRow>, np: int, nc: int, ns: int,
                       i: int, to: int)
    requires Wellformed(ps, cs, ss, np, nc, ns) && Exact(ps, cs, ss)
    requires 0 <= i < |ss| && 1 <= to <= Count(ss, ss[i].parent)
    ensures Wellformed(ps, cs, Moved(ss, i, to), np, nc, ns) && Exact(ps, cs, Moved(ss, i, to))
  {
    var moved := Moved(ss, i, to);
    MoveKeepsDense(ss, i, to);
    SceneRewriteKeeps(ps, cs, ss, moved, np, nc, ns);
    forall q ensures GroupWords(moved, q) == GroupWords(ss, q) {
      GroupWordsSameTally(ss, moved, q);
    }
  }

  /** Updating the scene at position i in place keeps the tables well formed. */
  lemma UpdateSceneKeeps(ps: seq<Project>, cs: seq<ChapterRow>, ss: seq<SceneRow>, np: int, nc: int, ns: int,
                         i: int, patch: ScenePatch)
    requires Wellformed(ps, cs, ss, np, nc, ns) && 0 <= i < |ss|
    ensures Wellformed(ps, cs, ss[i := ApplyScenePatch(ss[i], patch)], np, nc, ns)
  {
    var s1 := ss[i := ApplyScenePatch(ss[i], patch)];
    SameOrderKeepsDense(ss, s1);
    SceneRewriteKeeps(ps, cs, ss, s1, np, nc, ns);
  }

  /** Deleting the scene at position i and closing the gap keeps the tables well formed. */
  lemma DropSceneKeeps(ps: seq<Project>, cs: seq<ChapterRow>, ss: seq<SceneRow>, np: int, nc: int, ns: int, i: int)
    requires Wellformed(ps, cs, ss, np, nc, ns) && 0 <= i < |ss|
    ensures Wellformed(ps, cs, Closed(ss, i), np, nc, ns)
  {
    var closed := Closed(ss, i);
    ClosedRowsKeep(ss, i, Ids(cs), ns);
    forall j | 0 <= j < |closed| ensures closed[j].wordCount == ContentWords(closed[j].data.content) {
      assert RemoveAt(ss, i)[j] == ss[if j < i then j else j + 1];
    }
  }

  /** Setting one chapter's count keeps the tables well formed and every lookup. */
  lemma RecountChapterKeeps(ps: seq<Project>, cs: seq<ChapterRow>, ss: seq<SceneRow>, np: int, nc: int, ns: int, cid: int)
    requires Wellformed(ps, cs, ss, np, nc, ns)
    ensures Wellformed(ps, RecountChapter(cs, ss, cid), ss, np, nc, ns)
    ensures Ids(RecountChapter(cs, ss, cid)) == Ids(cs)
    ensures forall id :: IndexOf(RecountChapter(cs, ss, cid), id) == IndexOf(cs, id)
  {
    var c1 := RecountChapter(cs, ss, cid);
    SameLayoutButOrder(cs, c1, ProjectIds(ps), nc);
    SameOrderKeepsDense(cs, c1);
  }

  /** Once the scenes of chapter cid gained delta words, recounting it moves its count by delta and makes every chapter count exact. */
  lemma RecountChapterShift(cs: seq<ChapterRow>, s0: seq<SceneRow>, s1: seq<SceneRow>, cid: int, delta: int)
    requires UniqueIds(cs) && ChaptersTallied(cs, s0) && cid in Ids(cs)
    requires forall q :: GroupWords(s1, q) == GroupWords(s0, q) + (if q == cid then delta else 0)
    ensures var i := IndexOf(cs, cid);
      && 0 <= i
      && RecountChapter(cs, s1, cid) == ShiftCount(cs, i, delta)
    ensures ChaptersTallied(RecountChapter(cs, s1, cid), s1)
  {
    IdsAndIndexOf(cs, cid);
    var c1 := RecountChapter(cs, s1, cid);
    forall j | 0 <= j < |c1| ensures c1[j].wordCount == GroupWords(s1, c1[j].id) {
      if c1[j].id != cid {
        assert c1[j] == cs[j];
      }
    }
  }

  /** Moving one chapter's count by delta moves its project's sum by delta and no other. */
  lemma ChapterShiftSums(cs: seq<ChapterRow>, i: int, delta: int)
    requires 0 <= i < |cs|
    ensures forall q :: (GroupWords(ShiftCount(cs, i, delta), q) ==
      GroupWords(cs, q) + (if q == cs[i].parent then delta else 0))
  {
    forall q ensures GroupWords(ShiftCount(cs, i, delta), q) ==
      GroupWords(cs, q) + (if q == cs[i].parent then delta else 0)
    {
      GroupWordsReplace(cs, i, cs[i].(wordCount := cs[i].wordCount + delta), q);
    }
  }

  /** When every total is exact, setting project pid's total to its sum plus delta moves that total by delta. */
  lemma WithTotalShift(ps: seq<Project>, cs: seq<ChapterRow>, pid: int, total: int, delta: int)
    requires ProjectsTallied(ps, cs) && total == GroupWords(cs, pid) + delta
    ensures TotalShifted(ps, WithTotal(ps, pid, total), pid, delta)
  {
    var k := ProjectIndex(ps, pid);
    if 0 <= k {
      assert ProjectTallied(ps[k], cs);
    }
  }

  /**
   * The scene rollup: after one scene of chapter cid went from `was` words to `now` (and no
   * other chapter's sum moved), recounting that chapter and then its project makes every
   * count exact again, and moves exactly those two counts by the difference.
   */
  lemma SceneRollup(ps: seq<Project>, cs: seq<ChapterRow>, s0: seq<SceneRow>, s1: seq<SceneRow>,
                    c1: seq<ChapterRow>, p1: seq<Project>, cid: int, was: int, now: int)
    requires ProjectUnique(ps) && UniqueIds(cs) && Exact(ps, cs, s0) && cid in Ids(cs)
    requires forall q :: GroupWords(s1, q) == GroupWords(s0, q) + (if q == cid then now - was else 0)
    requires c1 == RecountChapter(cs, s1, cid) && p1 == RecountOwner(ps, c1, cid)
    ensures Exact(p1, c1, s1)
    ensures RolledUp(cs, ps, c1, p1, cid, was, now)
  {
    var delta := now - was;
    var i := IndexOf(cs, cid);
    RecountChapterShift(cs, s0, s1, cid, delta);
    IndexOfFirst(cs, cid);
    IndexOfAt(c1, cid, i);
    var pid := cs[i].parent;
    assert c1[i].parent == pid;
    ChapterShiftSums(cs, i, delta);
    var total := GroupWords(c1, pid);
    assert total == GroupWords(cs, pid) + delta;
    assert p1 == WithTotal(ps, pid, total);
    ProjectRecount(ps, cs, c1, pid);
    WithTotalShift(ps, cs, pid, total, delta);
  }

  /** A new scene's words roll up to its chapter and that chapter's project, and every count is exact again. */
  lemma NewSceneRollup(ps: seq<Project>, cs: seq<ChapterRow>, ss: seq<SceneRow>, c1: seq<ChapterRow>, p1: seq<Project>,
                       s: SceneRow)
    requires ProjectUnique(ps) && UniqueIds(cs) && Exact(ps, cs, ss) && s.parent in Ids(cs)
    requires c1 == RecountChapter(cs, ss + [s], s.parent) && p1 == RecountOwner(ps, c1, s.parent)
    ensures Exact(p1, c1, ss + [s])
    ensures RolledUp(cs, ps, c1, p1, s.parent, 0, s.wordCount)
  {
    forall q ensures GroupWords(ss + [s], q) == GroupWords(ss, q) + (if q == s.parent then s.wordCount else 0) {
      GroupWordsAppend(ss, s, q);
    }
    var s1, cid := ss + [s], s.parent;
    SceneRollup(ps, cs, ss, s1, c1, p1, cid, 0, s.wordCount);
  }

  /** A rewritten scene's change in words rolls up to its chapter and project, and every count is exact again. */
  lemma UpdateSceneRollup(ps: seq<Project>, cs: seq<ChapterRow>, ss: seq<SceneRow>, c1: seq<ChapterRow>, p1: seq<Project>,
                          i: int, s: SceneRow)
    requires ProjectUnique(ps) && UniqueIds(cs) && Exact(ps, cs, ss) && 0 <= i < |ss| && s.parent == ss[i].parent && s.parent in Ids(cs)
    requires c1 == RecountChapter(cs, ss[i := s], s.parent) && p1 == RecountOwner(ps, c1, s.parent)
    ensures Exact(p1, c1, ss[i := s])
    ensures RolledUp(cs, ps, c1, p1, s.parent, ss[i].wordCount, s.wordCount)
  {
    forall q ensures GroupWords(ss[i := s], q) == GroupWords(ss, q) + (if q == s.parent then s.wordCount - ss[i].wordCount else 0) {
      GroupWordsReplace(ss, i, s, q);
    }
    var s1, cid := ss[i := s], s.parent;
    SceneRollup(ps, cs, ss, s1, c1, p1, cid, ss[i].wordCount, s.wordCount);
  }

  /** A deleted scene's words come off its chapter and project, and every count is exact again. */
  lemma DeleteSceneRollup(ps: seq<Project>, cs: seq<ChapterRow>, ss: seq<SceneRow>, c1: seq<ChapterRow>, p1: seq<Project>,
                          i: int)
    requires ProjectUnique(ps) && UniqueIds(cs) && Exact(ps, cs, ss) && 0 <= i < |ss| && ss[i].parent in Ids(cs)
    requires c1 == RecountChapter(cs, Closed(ss, i), ss[i].parent) && p1 == RecountOwner(ps, c1, ss[i].parent)
    ensures Exact(p1, c1, Closed(ss, i))
    ensures RolledUp(cs, ps, c1, p1, ss[i].parent, ss[i].wordCount, 0)
  {
    ClosedSums(ss, i);
    var s1, cid := Closed(ss, i), ss[i].parent;
    SceneRollup(ps, cs, ss, s1, c1, p1, cid, ss[i].wordCount, 0);
  }
}
