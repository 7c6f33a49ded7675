# Novel project store: a Dafny model of the CRUD layer

This project models the data-access layer of a novel-writing service. An author's work is
kept in three tables:

- **projects** hold novels with a title, a target word count (80000 by default), a current
  word count and an `is_active` flag;
- **chapters** belong to a project;
- **scenes** belong to a chapter.

Chapters and scenes carry a 1-based `order_index` among their siblings and a `word_count`.
A scene's count is the number of whitespace-separated words in its content. A chapter's
count is the sum of its scenes' counts, and a project's current count is the sum of its
chapters' counts. Creating, updating or deleting a scene re-derives its chapter's count
and its project's total, and deleting a chapter re-derives its project's total; the other
writes (everything on projects, chapter create, update and reorder, scene reorder) change
no count.

The CRUD operations are modelled as the methods of one class, `NovelStore.Store`. It holds
the three tables as sequences of rows and one key counter per table, and its methods update
them in place:

- a project is created, updated and soft-deleted (it stays, marked inactive, and leaves the
  active listing); the listing itself (`get_all`) is not a method but the function
  `Invariants.Listed` on the project table;
- a chapter is created last in its project, moved by drag-and-drop, updated without ever
  changing its position, and hard-deleted with its scenes, with the later chapters closing
  the gap;
- a scene is created last in its chapter (titled "Scene N" when untitled), moved, updated
  (recounted when its content is named) and deleted, with the gap closed;
- the two rollups recompute a chapter's count from its scenes and a project's total from
  its chapters.

The bulk `UPDATE … SET order_index = order_index ± 1` statements the source issues are
specification functions on the tables:

- `Shifted` is the bulk update itself;
- `Moved` is reordering;
- `Closed` is a delete followed by closing the gap;
- `Without` is the cascade that removes a chapter's scenes.

The methods are proved against these functions.

Two invariants are kept by every CRUD operation and proved for each one. The two rollup
helpers, `RecomputeProjectWords` and `RecomputeChapterWords`, promise only `Valid`: they are
the steps that bring the counts back in line, called while the counts are still out of date,
and the operation that calls them proves `Tallied` afterwards.

- `Valid`: keys are unique and issued by the counters, every row's parent exists, every
  sibling group is numbered exactly 1..n, and every scene's count matches its content;
- `Tallied`: every chapter's count is the sum of its scenes' counts, and every project's
  total is the sum of its chapters' counts.

The modules are:

- `Values`: Option and field-update wrappers;
- `Words`: the word count;
- `Decimal`: rendering "Scene N";
- `Records`: the rows and the update requests;
- `Tables`: key lookup and cascade;
- `Ordering`: sibling order;
- `Rollup`: sums;
- `Invariants`: what the store keeps and why each change keeps it;
- `NovelStore`: the store.

## Model

| member | source | states |
|---|---|---|
| NovelStore.Store.constructor | app/models/novel.py:6-71 | An empty store: no projects, chapters or scenes, and both invariants hold. |
| NovelStore.Store.CreateProject | app/crud/novel_crud.py:9-22 | The new project has a fresh key, the given fields, target 80000, a current count of 0 and is active; it is appended and nothing else changes; both invariants are kept. |
| NovelStore.Store.UpdateProject | app/crud/novel_crud.py:37-48 | Returns the updated project exactly when the key exists, with the named fields set and its key and current count unchanged; a missing key changes nothing; both invariants are kept. |
| NovelStore.Store.DeleteProject | app/crud/novel_crud.py:50-59 | Succeeds exactly when the key exists; only that project's flag changes, to inactive; the project stays in the table but no longer appears in the active listing; chapters and scenes are untouched. |
| Invariants.Listed | app/crud/novel_crud.py:29-35 | With the active filter, every listed project is an active project of the table and every active project is listed; without it, the listing is the whole table. |
| Invariants.ListedCounts | app/crud/novel_crud.py:29-35 | Each project is listed exactly as often as it occurs in the table if it passes the filter, and never otherwise: no project is listed twice. |
| Invariants.ListedConcat | app/crud/novel_crud.py:29-35 | The listing keeps table order: the listing of two tables one after the other is their listings one after the other. |
| Invariants.InactiveNotListed | app/crud/novel_crud.py:29-35 | A project whose rows are all inactive never appears in the active listing. |
| NovelStore.Store.CreateChapter | app/crud/novel_crud.py:63-80 | The new chapter of an existing project has a fresh key, no words and position count+1 (last among its siblings); it is appended, nothing else changes, and both invariants are kept. |
| Ordering.GroupMax | app/crud/novel_crud.py:68-69 | The maximum order index in a group: absent exactly when the group is empty, otherwise a member's index that bounds every member's index. |
| Ordering.NextOrder | app/crud/novel_crud.py:68-69 | `(max or 0) + 1` over the group; an empty group gives 1. |
| Ordering.NextOrderIsFresh | app/crud/novel_crud.py:194-195 | The index a new chapter or scene gets lies above every index already in its group, so it never collides with a sibling. |
| Ordering.NextOrderOfDense | app/crud/novel_crud.py:68-69 | On a group numbered 1..n, "maximum or 0, plus one" is n+1. |
| Ordering.AppendKeepsDense | app/crud/novel_crud.py:63-80 | Appending a row at the next position keeps every group numbered 1..n. |
| NovelStore.Store.MoveChapter | app/crud/novel_crud.py:95-123 | Succeeds exactly when the key exists; the chapter table becomes the reordering of the chapter to the new position; projects and scenes are untouched; both invariants are kept. |
| Ordering.Moved | app/crud/novel_crud.py:95-123 | Reordering puts the row at the new position, changes no field but the order index and leaves other groups alone. |
| Ordering.Shifted | app/crud/novel_crud.py:107-118 | The bulk `order_index ± 1` update (also lines 149-152, 238-249 and 288-291) keeps the table's length; the rows it touches are stated by MovedIndex and ClosedIndex. |
| Ordering.MovedIndex | app/crud/novel_crud.py:105-118 | After a move from `from` to `to`, a sibling at o goes to o-1 when moving down and from < o <= to, to o+1 when moving up and to <= o < from, and stays otherwise. |
| Ordering.MoveKeepsOwnGroupDense | app/crud/novel_crud.py:104-120 | After a move to a position in 1..n, the moved row's group is still numbered exactly 1..n. |
| Ordering.MoveKeepsDense | app/crud/novel_crud.py:95-123 | A move keeps every group in the table numbered exactly 1..n. |
| Ordering.MoveKeepsRelativeOrder | app/crud/novel_crud.py:104-118 | Siblings other than the moved row keep their order relative to one another. |
| Ordering.MoveInPlaceIsIdentity | app/crud/novel_crud.py:112-120 | Moving a row to its own position changes nothing. |
| Ordering.MoveFirstToLast | app/crud/novel_crud.py:105-111 | Moving the first of n siblings to position n puts it last and moves every other sibling up one place. |
| NovelStore.Store.UpdateChapter | app/crud/novel_crud.py:125-136 | Returns the updated chapter exactly when the key exists; the named fields are set but never the key, parent, position or count; a missing key changes nothing; both invariants are kept. |
| Records.ApplyChapterPatch | app/crud/novel_crud.py:129-132 | A chapter update keeps the key, parent, position and word count. |
| Records.ApplyProjectPatch | app/crud/novel_crud.py:41-44 | A project update keeps the key and the current count, and the active flag when it is not named. |
| Records.PatchesAreIdempotent | app/crud/novel_crud.py:42-44 | Applying the same update to a project, chapter or scene twice gives the same row as applying it once. |
| Records.ApplyScenePatch | app/crud/novel_crud.py:260-267 | A scene update keeps key, parent and position; it recounts the words exactly when the content is named, so a count that matched the content still matches. |
| NovelStore.Store.DeleteChapter | app/crud/novel_crud.py:138-159 | Succeeds exactly when the key exists; the chapter is removed and its later siblings close the gap; its scenes are cascaded away; its project's total is the sum over the remaining chapters, which is the old total minus the deleted chapter's count; both invariants are kept. |
| Ordering.Closed | app/crud/novel_crud.py:146-152 | Deleting and closing the gap removes exactly one row, changes no field but the order index, and leaves other groups alone. |
| Ordering.ClosedIndex | app/crud/novel_crud.py:149-152 | After a delete, each remaining sibling whose index was above the deleted one moves up one place, and the others keep their index. |
| Ordering.DeleteKeepsDense | app/crud/novel_crud.py:138-159 | A delete keeps every group numbered 1..n, and the deleted row's group loses exactly one member. |
| Ordering.DeleteKeepsRelativeOrder | app/crud/novel_crud.py:148-152 | The remaining siblings keep their relative order after a delete. |
| Tables.Without | app/models/novel.py:44-45 | The cascade keeps exactly the rows outside the deleted parent, and only those. |
| Invariants.CascadeKeeps | app/models/novel.py:44-45 | Removing a deleted chapter's scenes keeps keys, parents, numbering and content counts valid, and leaves every other chapter's scene sum unchanged. |
| Invariants.DeleteChapterTallies | app/crud/novel_crud.py:138-159 | After the delete, the cascade and the project recount, all counts are exact, and the project total falls by exactly the deleted chapter's count. |
| NovelStore.Store.RecomputeProjectWords | app/crud/novel_crud.py:161-171 | The project's total becomes the sum of its chapters' counts, 0 when it has none; a missing project changes nothing. |
| Rollup.GroupWordsEmpty | app/crud/novel_crud.py:164-165 | A group with no rows sums to 0, as the SUM query does once `or 0` replaces its NULL. |
| Rollup.GroupWords | app/crud/novel_crud.py:164-165 | `SUM(word_count) ... or 0` over a group (also lines 303-304 and 311-312). It has no contract of its own; GroupWordsEmpty, GroupWordsConcat, GroupWordsRemoveAt and GroupWordsReplace state its properties. |
| Rollup.GroupWordsConcat | app/crud/novel_crud.py:164-165 | The sum over two tables put together is the sum of their sums. |
| Rollup.GroupWordsRemoveAt | app/crud/novel_crud.py:285-304 | Removing one row lowers a group's sum by exactly that row's share. |
| Rollup.GroupWordsReplace | app/crud/novel_crud.py:308-312 | Replacing one row moves a group's sum by that row's change in share. |
| Invariants.WithTotalById | app/crud/novel_crud.py:167-169 | Setting a project's total changes that project's (first) row and no other. |
| Invariants.WithTotal | app/crud/novel_crud.py:167-169 | Writing a project's total keeps the table's length; WithTotalById states that only the first project with the key gets the new total. |
| Invariants.RecountChapter | app/crud/novel_crud.py:303-308 | Setting a chapter's count to its scene sum keeps the chapter table's length; RecountChapterShift and SceneRollup state which row changes and by how much. |
| Invariants.RecountOwner | app/crud/novel_crud.py:311-316 | Setting the total of a chapter's project to the sum over its chapters keeps the project table's length; SceneRollup states that only that project's total moves, by the chapter's change. |
| Invariants.ProjectRecount | app/crud/novel_crud.py:161-171 | When only one project's chapter sum changed, recounting that project makes every project total exact again. |
| NovelStore.Store.RecomputeChapterWords | app/crud/novel_crud.py:300-319 | The chapter's count becomes its scene sum, and then its project's total becomes the sum over its chapters including that new count; a missing chapter changes nothing. |
| NovelStore.Store.CreateScene | app/crud/novel_crud.py:189-211 | The new scene of an existing chapter has a fresh key, position count+1, the given title or "Scene N", and its content's word count; its chapter and project both grow by exactly that count and nothing else changes. |
| Records.SceneTitle | app/crud/novel_crud.py:198 | The given title is kept unless absent or empty; otherwise the title is "Scene " followed by digits that read back as the position, with a leading zero only for position 0. |
| Records.DefaultSceneTitle | app/crud/novel_crud.py:198 | An untitled or empty-titled scene at position n >= 1 is titled exactly "Scene " and the decimal rendering of n; the third scene is "Scene 3". |
| Decimal.CanonicalDecimal | app/crud/novel_crud.py:198 | A digit string without a leading zero that reads back as a positive n is the decimal rendering of n, so the title's digits are determined. |
| Decimal.DecimalRoundTrip | app/crud/novel_crud.py:198 | The decimal rendering of a number reads back as that number. |
| Words.Tokens | app/crud/novel_crud.py:203 | Whitespace splitting yields only non-empty words that contain no whitespace. |
| Words.ContentWords | app/crud/novel_crud.py:203 | `len(content.split()) if content else 0` (also line 267): absent content counts 0 words, and present content counts its split words, with empty content splitting into none. |
| Words.TokensKeepText | app/crud/novel_crud.py:203 | The words, joined, are exactly the content's non-whitespace characters in order: splitting loses and invents nothing. |
| Words.TokensAtSpace | app/crud/novel_crud.py:203 | A whitespace character splits the content: the words are those before it followed by those after it. |
| Words.BlankEdges | app/crud/novel_crud.py:203 | Leading or trailing whitespace does not change the words. |
| Words.TokensOfBlank | app/crud/novel_crud.py:203 | Content that is all whitespace has no words. |
| Words.TokensOfWord | app/crud/novel_crud.py:203 | A run of non-whitespace is one word. |
| Words.TwoWords | app/crud/novel_crud.py:203 | Two words separated and surrounded by any whitespace count as exactly those two words. |
| NovelStore.Store.MoveScene | app/crud/novel_crud.py:225-254 | Succeeds exactly when the key exists; the scene table becomes the reordering of the scene to the new position; chapters and projects are untouched; both invariants are kept. |
| Invariants.MoveSceneKeeps | app/crud/novel_crud.py:225-254 | Reordering a scene keeps the tables valid and every sum unchanged. |
| NovelStore.Store.UpdateScene | app/crud/novel_crud.py:256-275 | Returns the updated scene exactly when the key exists, keeping its key, parent and position and recounting when content is named; its chapter and project move by exactly the change in the scene's count; a missing key changes nothing. |
| NovelStore.Store.DeleteScene | app/crud/novel_crud.py:277-298 | Succeeds exactly when the key exists; the scene is removed with its later siblings closing the gap; its chapter and project lose exactly its count; a missing key changes nothing. |
| Invariants.SceneRollup | app/crud/novel_crud.py:300-319 | When one chapter's scene sum moves from one value to another, the flushed rollup moves that chapter's count and its project's total by exactly that difference and leaves every other row alone. |
| Invariants.NewSceneRollup | app/crud/novel_crud.py:205-210 | Adding a scene and rolling up keeps counts exact and raises the chapter and project by the scene's count. |
| Invariants.UpdateSceneRollup | app/crud/novel_crud.py:260-274 | Rewriting a scene and rolling up keeps counts exact and moves the chapter and project by the change in the scene's count. |
| Invariants.DeleteSceneRollup | app/crud/novel_crud.py:285-296 | Deleting a scene and rolling up keeps counts exact and lowers the chapter and project by the scene's count. |
| Invariants.TotalsNonNegative | app/crud/novel_crud.py:161-171 | While counts are exact, no chapter count and no project total is negative. |
| Rollup.FlushedProjectTotal | app/crud/novel_crud.py:308-312 | The project total with the chapter's new count written is the old sum minus the chapter's old count plus its new one. |
| Rollup.UnflushedProjectTotal | app/crud/novel_crud.py:311-312 | The as-written project SUM, taken before the chapter's new count is written: the sum over the chapters' stored counts. It has no contract of its own; UnflushedTotalLags and UnflushedTotalIsStale state how it falls short. |
| Rollup.UnflushedTotalLags | app/crud/novel_crud.py:306-316 | The project total summed before the chapter's new count is flushed is short by exactly the chapter's change, and correct exactly when the count did not change. |
| Rollup.UnflushedTotalIsStale | app/crud/novel_crud.py:306-316 | A project with one 2-word chapter that gains a 1-word scene keeps a total of 2 where 3 is meant. |
| Tables.IndexOfFirst | app/crud/novel_crud.py:97 | The key lookup finds the first row with the key and reports none exactly when no row has it. |
| Tables.IndexOf | app/crud/novel_crud.py:128 | The `.filter(id == ...).first()` lookup: a position in the table whose row has the key, or -1; IndexOfFirst states that it is the first such row and -1 exactly when none has the key. |
| Tables.AppendFreshKey | app/crud/novel_crud.py:19-21 | Appending a row under the next counter value keeps keys unique and below the counter, adds exactly that key and moves no existing row. |
| Tables.RemoveAtKeys | app/crud/novel_crud.py:146 | Removing a row keeps keys unique and removes exactly that row's key. |
| Ordering.DenseIsOneToN | app/crud/novel_crud.py:95-123 | A group's indices are distinct and within 1..n exactly when they are the set {1..n}. |

## Left out

- `get_by_id`, `get_by_project` and `get_by_chapter` are plain reads. The key lookup they share is `Tables.IndexOf` (first match). Ordering a group by `order_index` is not modelled as a separate function.
- Timestamps (`created_at`, `updated_at`) are set from the clock and are not modelled.
- Sessions, `commit`, `refresh` and rollback are not modelled. Every operation is one atomic step on the tables, except where the unflushed read matters (see Findings).
- The HTTP routers are not modelled. Their checks appear as preconditions:
  - a new chapter's project and a new scene's chapter must exist (app/routers/chapters.py:19-25, app/routers/scenes.py:19-24);
  - a move's new position must lie in 1..n: the request schema demands at least 1 (app/schemas/novel.py:37, 56), and the router rejects more than n (app/routers/chapters.py:163-171, app/routers/scenes.py:164-172).
- Keys come from a counter per table. The database's own choice of row ids, and its possible reuse of a deleted id, are not modelled.
- Generic `**kwargs` updates are modelled as update requests with one optional entry per column of the schema's update body. The chapter and scene requests also carry an `orderIndex` entry, which the update schemas do not have. It stands for a caller passing `order_index` directly, and the updates never apply it, as the guard at app/crud/novel_crud.py:131 and 262 says. Other attributes outside those columns are not modelled.
- `None` word counts are not modelled. No operation writes one, and counts are always integers here. A project's target word count may be absent, as its column allows, and an update may clear it.
- An update that names a field with an explicit `null` is modelled only for the nullable text columns and the target count. Such a request passes the update schemas (app/schemas/novel.py:16-22, 31-34, 48-53), and the routers forward it because they drop only fields left unset (app/routers/novels.py:99, app/routers/chapters.py:121, app/routers/scenes.py:122). Two cases are not modelled:
  - `"title": null` on a project or chapter writes NULL into a NOT NULL column (app/models/novel.py:10, 31), so the commit fails. The model's updates name a title only as a string and have no failing path.
  - `null` for `is_active` or `is_completed` stores NULL in a nullable flag column (app/models/novel.py:16, 35, 60). The model's flags are booleans, so a project with a NULL `is_active` is not represented. Such a project would drop out of the active listing the way an inactive one does.
- `ChapterCRUD._update_chapter_word_count` (app/crud/novel_crud.py:173-185) is never called. It computes the same unflushed total as the scene rollup and is not modelled separately.

## Findings

| source | as written | input that shows it | evidently intended | confidence | as-written member | corrected member |
|---|---|---|---|---|---|---|
| app/crud/novel_crud.py:306-316 with app/database/connection.py:56 | The chapter's new count is only assigned in memory. The session does not autoflush, so the project SUM reads the chapter's old stored count. | A project with one chapter of 2 words gains a scene with 1 word: the chapter becomes 3, the project stays 2. | The project total is the sum including the chapter's new count (3). | not executed | Rollup.UnflushedTotalIsStale | NovelStore.Store.RecomputeChapterWords |
