/**
 * The store behind the CRUD layer: the three tables held by one object whose operations
 * update them in place. Every operation keeps the tables well formed (unique keys,
 * existing parents, dense sibling order, scene counts matching their content) and the
 * derived word counts exact.
 */
module NovelStore {
  import opened Values
  import opened Words
  import opened Records
  import opened Ordering
  import opened Rollup
  import opened Tables
  import opened Invariants

  class Store {
    var projects: seq<Project>
    var chapters: seq<ChapterRow>
    var scenes: seq<SceneRow>
    var nextProjectId: int
    var nextChapterId: int
    var nextSceneId: int

    /** The tables are well formed. */
    ghost predicate Valid()
      reads this
    {
      Wellformed(projects, chapters, scenes, nextProjectId, nextChapterId, nextSceneId)
    }

    /** The derived counts are exact. */
    ghost predicate Tallied()
      reads this
    {
      Exact(projects, chapters, scenes)
    }

    constructor()
      ensures Valid() && Tallied()
      ensures projects == [] && chapters == [] && scenes == []
    {
      projects := [];
      chapters := [];
      scenes := [];
      nextProjectId := 1;
      nextChapterId := 1;
      nextSceneId := 1;
    }

    // -------------------------------------------------------------------------
    // Projects

    /** A new active project with the default target and no words, under a fresh key. */
    method CreateProject(title: string, description: Option<string>, author: Option<string>, genre: Option<string>)
      returns (p: Project)
      requires Valid() && Tallied()
      modifies this
      ensures Valid() && Tallied()
      ensures nextProjectId == old(nextProjectId) + 1 && nextChapterId == old(nextChapterId) && nextSceneId == old(nextSceneId)
      ensures p == Project(old(nextProjectId), title, description, author, genre, Some(DefaultTargetWordCount), 0, true)
      ensures p.id !in old(ProjectIds(projects))
      ensures projects == old(projects) + [p]
      ensures chapters == old(chapters) && scenes == old(scenes)
    {
      p := Project(nextProjectId, title, description, author, genre, Some(DefaultTargetWordCount), 0, true);
      ghost var ps, np := projects, nextProjectId;
      projects := projects + [p];
      nextProjectId := nextProjectId + 1;
      NewProjectKeeps(ps, chapters, scenes, np, nextChapterId, nextSceneId, p, nextProjectId);
    }

    /** Sets the named fields of an existing project; a missing key changes nothing. */
    method UpdateProject(id: int, patch: ProjectPatch) returns (r: Option<Project>)
      requires Valid() && Tallied()
      modifies this
      ensures Valid() && Tallied()
      ensures nextProjectId == old(nextProjectId) && nextChapterId == old(nextChapterId) && nextSceneId == old(nextSceneId)
      ensures r.Some? <==> id in old(ProjectIds(projects))
      ensures r.None? ==> projects == old(projects)
      ensures r.Some? ==>
        var k := old(ProjectIndex(projects, id));
        projects == old(projects)[k := ApplyProjectPatch(old(projects)[k], patch)] && r.value == projects[k]
      ensures chapters == old(chapters) && scenes == old(scenes)
    {
      ProjectIdsAndIndex(projects, id);
      var k := ProjectIndex(projects, id);
      if k < 0 {
        return None;
      }
      var p := ApplyProjectPatch(projects[k], patch);
      ProjectRewriteKeeps(projects, chapters, scenes, nextProjectId, nextChapterId, nextSceneId, k, p);
      projects := projects[k := p];
      r := Some(p);
    }

    /**
     * Soft delete: the project is marked inactive and drops out of the active listing,
     * while the project and all its chapters and scenes stay in the tables.
     */
    method DeleteProject(id: int) returns (ok: bool)
      requires Valid() && Tallied()
      modifies this
      ensures Valid() && Tallied()
      ensures nextProjectId == old(nextProjectId) && nextChapterId == old(nextChapterId) && nextSceneId == old(nextSceneId)
      ensures ok <==> id in old(ProjectIds(projects))
      ensures !ok ==> projects == old(projects)
      ensures ok ==>
        var k := old(ProjectIndex(projects, id));
        projects == old(projects)[k := old(projects)[k].(isActive := false)]
      ensures ok ==> id in ProjectIds(projects) && forall j :: 0 <= j < |Listed(projects, true)| ==> Listed(projects, true)[j].id != id
      ensures chapters == old(chapters) && scenes == old(scenes)
    {
      ProjectIdsAndIndex(projects, id);
      var k := ProjectIndex(projects, id);
      if k < 0 {
        return false;
      }
      var p := projects[k].(isActive := false);
      ProjectRewriteKeeps(projects, chapters, scenes, nextProjectId, nextChapterId, nextSceneId, k, p);
      ProjectReplace(projects, k, p, nextProjectId);
      projects := projects[k := p];
      InactiveNotListed(projects, id, nextProjectId);
      ok := true;
    }

    // -------------------------------------------------------------------------
    // Chapters

    /** A new chapter of an existing project, placed last in that project, with no words. */
    method CreateChapter(projectId: int, title: string, description: Option<string>) returns (c: ChapterRow)
      requires Valid() && Tallied()
      requires projectId in ProjectIds(projects)
      modifies this
      ensures Valid() && Tallied()
      ensures nextProjectId == old(nextProjectId) && nextChapterId == old(nextChapterId) + 1 && nextSceneId == old(nextSceneId)
      ensures c == Row(old(nextChapterId), projectId, Count(old(chapters), projectId) + 1, 0,
                       ChapterData(title, description, false))
      ensures c.id !in old(Ids(chapters))
      ensures chapters == old(chapters) + [c]
      ensures projects == old(projects) && scenes == old(scenes)
    {
      var order := NextOrder(chapters, projectId);
      c := Row(nextChapterId, projectId, order, 0, ChapterData(title, description, false));
      ghost var ps, cs, ss, nc := projects, chapters, scenes, nextChapterId;
      chapters := chapters + [c];
      nextChapterId := nextChapterId + 1;
      NewChapterKeeps(ps, cs, ss, nextProjectId, nc, nextSceneId, c, nextChapterId);
    }

    /**
     * Drag-and-drop reordering of a chapter within its project. A missing key changes
     * nothing and reports false.
     */
    method MoveChapter(id: int, newOrder: int) returns (ok: bool)
      requires Valid() && Tallied()
      requires forall j :: 0 <= j < |chapters| && chapters[j].id == id ==>
        1 <= newOrder <= Count(chapters, chapters[j].parent)
      modifies this
      ensures Valid() && Tallied()
      ensures nextProjectId == old(nextProjectId) && nextChapterId == old(nextChapterId) && nextSceneId == old(nextSceneId)
      ensures ok <==> id in old(Ids(chapters))
      ensures chapters == if ok then Moved(old(chapters), old(IndexOf(chapters, id)), newOrder) else old(chapters)
      ensures projects == old(projects) && scenes == old(scenes)
    {
      IdsAndIndexOf(chapters, id);
      var i := IndexOf(chapters, id);
      if i < 0 {
        return false;
      }
      MoveKeepsDense(chapters, i, newOrder);
      ChapterRewriteKeeps(projects, chapters, Moved(chapters, i, newOrder), scenes,
                          nextProjectId, nextChapterId, nextSceneId);
      chapters := Moved(chapters, i, newOrder);
      ok := true;
    }

    /** Sets the named fields of an existing chapter, never its position; a missing key changes nothing. */
    method UpdateChapter(id: int, patch: ChapterPatch) returns (r: Option<ChapterRow>)
      requires Valid() && Tallied()
      modifies this
      ensures Valid() && Tallied()
      ensures nextProjectId == old(nextProjectId) && nextChapterId == old(nextChapterId) && nextSceneId == old(nextSceneId)
      ensures r.Some? <==> id in old(Ids(chapters))
      ensures r.None? ==> chapters == old(chapters)
      ensures r.Some? ==>
        var i := old(IndexOf(chapters, id));
        chapters == old(chapters)[i := ApplyChapterPatch(old(chapters)[i], patch)] && r.value == chapters[i]
      ensures projects == old(projects) && scenes == old(scenes)
    {
      IdsAndIndexOf(chapters, id);
      var i := IndexOf(chapters, id);
      if i < 0 {
        return None;
      }
      var c := ApplyChapterPatch(chapters[i], patch);
      SameOrderKeepsDense(chapters, chapters[i := c]);
      ChapterRewriteKeeps(projects, chapters, chapters[i := c], scenes, nextProjectId, nextChapterId, nextSceneId);
      chapters := chapters[i := c];
      r := Some(c);
    }

    /**
     * Hard delete of a chapter: its scenes go with it, the chapters after it in its project
     * move up one place, and the project's total loses exactly the chapter's words.
     */
    method DeleteChapter(id: int) returns (ok: bool)
      requires Valid() && Tallied()
      modifies this
      ensures Valid() && Tallied()
      ensures nextProjectId == old(nextProjectId) && nextChapterId == old(nextChapterId) && nextSceneId == old(nextSceneId)
      ensures ok <==> id in old(Ids(chapters))
      ensures !ok ==> chapters == old(chapters) && scenes == old(scenes) && projects == old(projects)
      ensures ok ==>
        var i := old(IndexOf(chapters, id));
        && chapters == Closed(old(chapters), i)
        && scenes == Without(old(scenes), id)
        && projects == WithTotal(old(projects), old(chapters)[i].parent, GroupWords(chapters, old(chapters)[i].parent))
        && GroupWords(chapters, old(chapters)[i].parent) ==
             old(GroupWords(chapters, chapters[i].parent)) - old(chapters)[i].wordCount
    {
      IdsAndIndexOf(chapters, id);
      var i := IndexOf(chapters, id);
      if i < 0 {
        return false;
      }
      var c := chapters[i];
      ghost var ps, cs, ss := projects, chapters, scenes;
      DropChapterKeeps(projects, chapters, scenes, nextProjectId, nextChapterId, nextSceneId, i);
      chapters := Closed(chapters, i);
      scenes := Without(scenes, c.id);
      RecomputeProjectWords(c.parent);
      DeleteChapterTallies(ps, cs, ss, projects, i);
      ok := true;
    }

    /**
     * `_update_project_word_count`: the total of project pid becomes the sum of its
     * chapters' counts as they now stand; a missing project changes nothing.
     */
    method RecomputeProjectWords(pid: int)
      requires Valid()
      modifies this
      ensures Valid()
      ensures nextProjectId == old(nextProjectId) && nextChapterId == old(nextChapterId) && nextSceneId == old(nextSceneId)
      ensures chapters == old(chapters) && scenes == old(scenes)
      ensures projects == WithTotal(old(projects), pid, GroupWords(chapters, pid))
    {
      var total := GroupWords(chapters, pid);
      var k := ProjectIndex(projects, pid);
      WithTotalKeys(projects, pid, total, nextProjectId);
      if k >= 0 {
        projects := projects[k := projects[k].(currentWordCount := total)];
      }
    }

    /**
     * The scene rollup, with the chapter's new count written before the project total is
     * summed: chapter cid's count becomes the sum of its scenes' counts, and then its
     * project's total the sum of its chapters' counts including that new one. A missing
     * chapter changes nothing.
     */
    method RecomputeChapterWords(cid: int)
      requires Valid()
      modifies this
      ensures Valid()
      ensures nextProjectId == old(nextProjectId) && nextChapterId == old(nextChapterId) && nextSceneId == old(nextSceneId)
      ensures scenes == old(scenes)
      ensures chapters == RecountChapter(old(chapters), scenes, cid)
      ensures projects == RecountOwner(old(projects), chapters, cid)
    {
      var total := GroupWords(scenes, cid);
      var i := IndexOf(chapters, cid);
      if i >= 0 {
        RecountChapterKeeps(projects, chapters, scenes, nextProjectId, nextChapterId, nextSceneId, cid);
        chapters := chapters[i := chapters[i].(wordCount := total)];
        RecomputeProjectWords(chapters[i].parent);
      }
    }

    // -------------------------------------------------------------------------
    // Scenes

    /**
     * A new scene of an existing chapter, placed last in that chapter, titled "Scene N"
     * when no title is given, with its content's word count, which the chapter and the
     * project then gain.
     */
    method CreateScene(chapterId: int, title: Option<string>, content: Option<string>, summary: Option<string>)
      returns (s: SceneRow)
      requires Valid() && Tallied()
      requires chapterId in Ids(chapters)
      modifies this
      ensures Valid() && Tallied()
      ensures nextProjectId == old(nextProjectId) && nextChapterId == old(nextChapterId) && nextSceneId == old(nextSceneId) + 1
      ensures s.id == old(nextSceneId) && s.id !in old(Ids(scenes)) && s.parent == chapterId
      ensures s.orderIndex == Count(old(scenes), chapterId) + 1
      ensures s.data == SceneData(Some(SceneTitle(title, s.orderIndex)), content, summary, None, false)
      ensures s.wordCount == ContentWords(content)
      ensures scenes == old(scenes) + [s]
      ensures RolledUp(old(chapters), old(projects), chapters, projects, chapterId, 0, s.wordCount)
    {
      var order := NextOrder(scenes, chapterId);
      NextOrderOfDense(scenes, chapterId);
      s := Row(nextSceneId, chapterId, order, ContentWords(content),
               SceneData(Some(SceneTitle(title, order)), content, summary, None, false));
      ghost var ps, cs, ss, ns := projects, chapters, scenes, nextSceneId;
      scenes := scenes + [s];
      nextSceneId := nextSceneId + 1;
      NewSceneKeeps(ps, cs, ss, nextProjectId, nextChapterId, ns, s, nextSceneId);
      RecomputeChapterWords(chapterId);
      NewSceneRollup(ps, cs, ss, chapters, projects, s);
    }

    /**
     * Drag-and-drop reordering of a scene within its chapter. A missing key changes
     * nothing and reports false.
     */
    method MoveScene(id: int, newOrder: int) returns (ok: bool)
      requires Valid() && Tallied()
      requires forall j :: 0 <= j < |scenes| && scenes[j].id == id ==>
        1 <= newOrder <= Count(scenes, scenes[j].parent)
      modifies this
      ensures Valid() && Tallied()
      ensures nextProjectId == old(nextProjectId) && nextChapterId == old(nextChapterId) && nextSceneId == old(nextSceneId)
      ensures ok <==> id in old(Ids(scenes))
      ensures scenes == if ok then Moved(old(scenes), old(IndexOf(scenes, id)), newOrder) else old(scenes)
      ensures projects == old(projects) && chapters == old(chapters)
    {
      IdsAndIndexOf(scenes, id);
      var i := IndexOf(scenes, id);
      if i < 0 {
        return false;
      }
      MoveSceneKeeps(projects, chapters, scenes, nextProjectId, nextChapterId, nextSceneId, i, newOrder);
      scenes := Moved(scenes, i, newOrder);
      ok := true;
    }

    /**
     * Sets the named fields of an existing scene, never its position; new content is
     * recounted and the difference rolls up to the chapter and the project. A missing key
     * changes nothing.
     */
    method UpdateScene(id: int, patch: ScenePatch) returns (r: Option<SceneRow>)
      requires Valid() && Tallied()
      modifies this
      ensures Valid() && Tallied()
      ensures nextProjectId == old(nextProjectId) && nextChapterId == old(nextChapterId) && nextSceneId == old(nextSceneId)
      ensures r.Some? <==> id in old(Ids(scenes))
      ensures r.None? ==> scenes == old(scenes) && chapters == old(chapters) && projects == old(projects)
      ensures r.Some? ==>
        var i := old(IndexOf(scenes, id));
        && scenes == old(scenes)[i := ApplyScenePatch(old(scenes)[i], patch)]
        && r.value == scenes[i]
        && RolledUp(old(chapters), old(projects), chapters, projects, r.value.parent,
                    old(scenes)[i].wordCount, r.value.wordCount)
    {
      IdsAndIndexOf(scenes, id);
      var i := IndexOf(scenes, id);
      if i < 0 {
        return None;
      }
      var s := ApplyScenePatch(scenes[i], patch);
      UpdateSceneKeeps(projects, chapters, scenes, nextProjectId, nextChapterId, nextSceneId, i, patch);
      ghost var ps, cs, ss := projects, chapters, scenes;
      scenes := scenes[i := s];
      RecomputeChapterWords(s.parent);
      UpdateSceneRollup(ps, cs, ss, chapters, projects, i, s);
      r := Some(s);
    }

    /**
     * Hard delete of a scene: the scenes after it in its chapter move up one place, and
     * the chapter and the project lose exactly the scene's words.
     */
    method DeleteScene(id: int) returns (ok: bool)
      requires Valid() && Tallied()
      modifies this
      ensures Valid() && Tallied()
      ensures nextProjectId == old(nextProjectId) && nextChapterId == old(nextChapterId) && nextSceneId == old(nextSceneId)
      ensures ok <==> id in old(Ids(scenes))
      ensures !ok ==> scenes == old(scenes) && chapters == old(chapters) && projects == old(projects)
      ensures ok ==>
        var i := old(IndexOf(scenes, id));
        && scenes == Closed(old(scenes), i)
        && RolledUp(old(chapters), old(projects), chapters, projects, old(scenes)[i].parent,
                    old(scenes)[i].wordCount, 0)
    {
      IdsAndIndexOf(scenes, id);
      var i := IndexOf(scenes, id);
      if i < 0 {
        return false;
      }
      var gone := scenes[i];
      DropSceneKeeps(projects, chapters, scenes, nextProjectId, nextChapterId, nextSceneId, i);
      ghost var ps, cs, ss := projects, chapters, scenes;
      scenes := Closed(scenes, i);
      RecomputeChapterWords(gone.parent);
      DeleteSceneRollup(ps, cs, ss, chapters, projects, i);
      ok := true;
    }
  }
}
