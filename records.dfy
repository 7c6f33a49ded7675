/**
 * The three tables of the store: projects, chapters and scenes, after the column
 * declarations of the source's ORM models, and the field-level update requests the
 * generic update operations apply to them.
 */
module Records {
  import opened Values
  import opened Words
  import opened Decimal

  /** The target word count a new project starts with. */
  const DefaultTargetWordCount := 80000

  /**
   * A project. `currentWordCount` is derived (the sum of its chapters' counts);
   * `isActive` is the soft-delete flag.
   */
  datatype Project = Project(
    id: int,
    title: string,
    description: Option<string>,
    author: Option<string>,
    genre: Option<string>,
    targetWordCount: Option<int>,
    currentWordCount: int,
    isActive: bool)

  /**
   * A member of a sibling group: a chapter (whose parent is its project) or a scene
   * (whose parent is its chapter). `orderIndex` is its 1-based position among the rows
   * with the same parent; `wordCount` is derived. `data` holds the remaining columns.
   */
  datatype Row<D> = Row(id: int, parent: int, orderIndex: int, wordCount: int, data: D)

  datatype ChapterData = ChapterData(title: string, description: Option<string>, isCompleted: bool)

  datatype SceneData = SceneData(
    title: Option<string>,
    content: Option<string>,
    summary: Option<string>,
    notes: Option<string>,
    isCompleted: bool)

  type ChapterRow = Row<ChapterData>
  type SceneRow = Row<SceneData>

  /** The fields a project update may name (identifiers and the derived count are not among them). */
  datatype ProjectPatch = ProjectPatch(
    title: Field<string>,
    description: Field<Option<string>>,
    author: Field<Option<string>>,
    genre: Field<Option<string>>,
    targetWordCount: Field<Option<int>>,
    isActive: Field<bool>)

  /** The fields a chapter update may name; `orderIndex` may be named but is never applied. */
  datatype ChapterPatch = ChapterPatch(
    title: Field<string>,
    description: Field<Option<string>>,
    isCompleted: Field<bool>,
    orderIndex: Field<int>)

  /** The fields a scene update may name; `orderIndex` may be named but is never applied. */
  datatype ScenePatch = ScenePatch(
    title: Field<Option<string>>,
    content: Field<Option<string>>,
    summary: Field<Option<string>>,
    notes: Field<Option<string>>,
    isCompleted: Field<bool>,
    orderIndex: Field<int>)

  /** A project update writes each named field and keeps the identifier and the derived count. */
  function ApplyProjectPatch(p: Project, patch: ProjectPatch): (r: Project)
    ensures r.id == p.id && r.currentWordCount == p.currentWordCount
    ensures patch.isActive.Keep? ==> r.isActive == p.isActive
  {
    p.(title := patch.title.Over(p.title),
       description := patch.description.Over(p.description),
       author := patch.author.Over(p.author),
       genre := patch.genre.Over(p.genre),
       targetWordCount := patch.targetWordCount.Over(p.targetWordCount),
       isActive := patch.isActive.Over(p.isActive))
  }

  /**
   * A chapter update never moves the chapter: identifier, parent, position and derived
   * count are kept, even when the request names an order index.
   */
  function ApplyChapterPatch(c: ChapterRow, patch: ChapterPatch): (r: ChapterRow)
    ensures r.id == c.id && r.parent == c.parent
    ensures r.orderIndex == c.orderIndex && r.wordCount == c.wordCount
  {
    c.(data := c.data.(title := patch.title.Over(c.data.title),
                       description := patch.description.Over(c.data.description),
                       isCompleted := patch.isCompleted.Over(c.data.isCompleted)))
  }

  /**
   * A scene update never moves the scene, recounts its words exactly when the request
   * names the content, and so keeps a count that matched the content matching it.
   */
  function ApplyScenePatch(s: SceneRow, patch: ScenePatch): (r: SceneRow)
    ensures r.id == s.id && r.parent == s.parent && r.orderIndex == s.orderIndex
    ensures patch.content.Keep? ==> r.wordCount == s.wordCount
    ensures patch.content.Set? ==> r.wordCount == ContentWords(patch.content.value)
    ensures s.wordCount == ContentWords(s.data.content) ==> r.wordCount == ContentWords(r.data.content)
  {
    var data := s.data.(title := patch.title.Over(s.data.title),
                        content := patch.content.Over(s.data.content),
                        summary := patch.summary.Over(s.data.summary),
                        notes := patch.notes.Over(s.data.notes),
                        isCompleted := patch.isCompleted.Over(s.data.isCompleted));
    var words := if patch.content.Set? then ContentWords(patch.content.value) else s.wordCount;
    s.(data := data, wordCount := words)
  }

  /** Applying the same update twice changes nothing more than applying it once. */
  lemma PatchesAreIdempotent(p: Project, pp: ProjectPatch, c: ChapterRow, cp: ChapterPatch, s: SceneRow, sp: ScenePatch)
    ensures ApplyProjectPatch(ApplyProjectPatch(p, pp), pp) == ApplyProjectPatch(p, pp)
    ensures ApplyChapterPatch(ApplyChapterPatch(c, cp), cp) == ApplyChapterPatch(c, cp)
    ensures ApplyScenePatch(ApplyScenePatch(s, sp), sp) == ApplyScenePatch(s, sp)
  {
  }

  /**
   * The title a new scene gets: the one given, unless it is absent or empty, in which
   * case "Scene N" where N is the position the scene is given.
   */
  function SceneTitle(title: Option<string>, position: nat): (r: string)
    ensures r != []
    ensures title.Some? && title.value != [] ==> r == title.value
    ensures title.None? || title.value == [] ==>
      && |r| > 6 && r[..6] == "Scene " && IsDigits(r[6..]) && DecimalValue(r[6..]) == position
      && (r[6] == '0' <==> position == 0)
  {
    if title.Some? && title.value != [] then title.value
    else
      var digits := DecimalString(position);
      DecimalRoundTrip(position);
      assert ("Scene " + digits)[6..] == digits;
      "Scene " + digits
  }

  /**
   * Without a title, the scene at position n is titled "Scene " and the decimal digits
   * of n, with no leading zero; e.g. the third scene is "Scene 3".
   */
  lemma DefaultSceneTitle(position: nat)
    requires position >= 1
    ensures SceneTitle(None, position) == "Scene " + DecimalString(position)
    ensures SceneTitle(Some([]), position) == SceneTitle(None, position)
    ensures SceneTitle(None, 3) == "Scene 3"
  {
    var r := SceneTitle(None, position);
    CanonicalDecimal(r[6..], position);
    assert r == r[..6] + r[6..];
    var three := SceneTitle(None, 3);
    CanonicalDecimal(three[6..], 3);
    assert three == three[..6] + three[6..];
    assert DecimalString(3) == "3";
  }
}
