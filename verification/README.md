# Current-task selection and Jira issue mapping, modelled in Dafny

This project models two groups of pure logic from a personal task tracker.

1. **The internal task effects** (`task-internal.effects.ts`). The RxJS/NgRx plumbing is removed, and each
   effect becomes a plain function from an incoming action and the task-state snapshot to the list of actions it emits.
   - `findNextTask` chooses the task that becomes active. It tries three tiers in order: a sibling under the same
     parent, then a forward and backward scan of today's flattened list, then (on a cold start) the remembered
     last task.
   - `autoSetNextTask$` is the switch over action types that decides whether to set or clear the current task.
   - `onAllSubTasksDone$` marks a parent done once all of its subtasks are done.
   - `roundTimesSpentForDay$` emits one day-rounding update per eligible leaf task.
2. **The Jira mapping helpers** (`jira-issue-map.util.ts`). These build the issue URL and project authors,
   attachments, comments and the changelog into the app's issue model.

Modules, one file each:

- `Wrappers` (`wrappers.dfy`): `Option`. `None` stands for both `null` and `undefined`.
- `JsArray` (`js_array.dfy`): `indexOf`, `slice` (with JavaScript's negative and clamped bounds) and `reverse`.
- `TaskTree` (`task_tree.dfy`): the snapshot and the tasks in it, as a map-based arena. It also holds the
  referential-integrity invariant `Valid`, `flattenToSelectable` and `find` with `filterUndoneNotCurrent`.
- `NextTask` (`next_task.dfy`): `findNextTask` and its characterisation lemmas.
- `TaskInternalEffects` (`task_internal_effects.dfy`): the action union and the three effects.
- `JiraIssueMap` (`jira_issue_map.dfy`): the Jira helpers.

Behaviour of the code worth knowing:

- The sibling tier takes the first undone sibling anywhere in the parent's list, not only the ones after the old task.
- The "before" part of the linear scan holds only the entries strictly before the old task. The old task's own
  block of subtasks is never searched.
- When the old task is not in today's list, its index is -1. Then `slice(0, -1)` drops the last entry and
  `slice(0)` is the whole list. `FallbackWhenNotToday` shows that the result is still the first candidate of the
  whole flattened list.
- `MoveToArchive` and `MoveToOtherProject` have no `case`. So `nextId` stays `undefined` and the effect emits
  `SetCurrentTask(undefined)`, which the model merges with `SetCurrentTask(null)`. It is not a no-op.
- `UpdateTask` reacts whenever `changes.isDone` is truthy. It does not check for a transition from not-done.
- The day batch emits an update for every eligible task, even when rounding leaves the value unchanged.
- The "take the first subtask" safety net is an `Array.isArray` test on a string id. It never fires, so it is the identity.

## Model

| member | source | states |
|---|---|---|
| `JsArray.IndexOf` | src/app/features/tasks/store/task-internal.effects.ts:169 | Returns -1 exactly when the id is absent. Otherwise it returns a position holding the id, with no earlier occurrence. |
| `JsArray.Slice` | src/app/features/tasks/store/task-internal.effects.ts:170-171 | Within range it is the plain subsequence. It never grows the array and only contains elements of the array. |
| `JsArray.SliceFrom` | src/app/features/tasks/store/task-internal.effects.ts:171 | `slice(start)`: within range the suffix from `start`; a negative start counts back from the end, one below `-length` gives the whole array, and one past the end gives the empty array. |
| `JsArray.SplitAtIndexOf` | src/app/features/tasks/store/task-internal.effects.ts:169-171 | On a hit at `i`, the two slices are the parts strictly before and after `i`. On -1, `slice(0, -1)` drops the last element and `slice(0)` is the whole list. |
| `JsArray.Reverse` | src/app/features/tasks/store/task-internal.effects.ts:175 | Same length, and element `i` is element `n-1-i` of the input. |
| `JsArray.ReverseSameElements` | src/app/features/tasks/store/task-internal.effects.ts:175 | Reversal keeps exactly the same elements. |
| `TaskTree.FlattenContents` | src/app/features/tasks/store/task-internal.effects.ts:152-156 | The flattened list holds every leaf entry and every subtask of an entry, and nothing else. With tree depth ≤ 2 it holds only leaves, so no id of a task that has subtasks appears. |
| `TaskTree.FlattenToSelectable` | src/app/features/tasks/store/task-internal.effects.ts:152-156 | The flattened list names only existing tasks and is at least as long as the input, since every entry contributes its subtasks or itself. |
| `TaskTree.FlattenAppend` | src/app/features/tasks/store/task-internal.effects.ts:152-156 | Flattening distributes over concatenation, so entries keep their order and each is replaced in place by its subtasks or by itself. |
| `TaskTree.FlattenAround` | src/app/features/tasks/store/task-internal.effects.ts:152-156 | Entry `i` of a list occupies one contiguous block of the flattened list, between the flattening of the entries before it and that of the entries after it. |
| `TaskTree.FindCandidate` | src/app/features/tasks/store/task-internal.effects.ts:151 | The result is none exactly when no element is undone and different from the old id. Otherwise it is the first such element. |
| `TaskTree.IsCandidate` | src/app/features/tasks/store/task-internal.effects.ts:151 | With no old task, a task is a candidate exactly when it is not done. With one, the filter agrees with the sibling test of line 162, `id !== oldCurrentId && isDone === false`. |
| `NextTask.SiblingCandidate` | src/app/features/tasks/store/task-internal.effects.ts:158-166 | The result is an undone sibling other than the old task. It is none exactly when every other sibling is done or the old task has no known parent. |
| `NextTask.LastSelectable` | src/app/features/tasks/store/task-internal.effects.ts:181 | True exactly when the remembered id is set, names an existing task, and that task is not done and has no subtasks. |
| `NextTask.SiblingFirst` | src/app/features/tasks/store/task-internal.effects.ts:158-166 | If sibling `k` is the first other undone subtask of the parent, `findNextTask` returns it. A later sibling or a task outside the parent is never preferred. |
| `NextTask.ScanAfterThenBefore` | src/app/features/tasks/store/task-internal.effects.ts:174-176 | The result is a candidate taken from the "after" or the "before" part. |
| `NextTask.ScanForward` | src/app/features/tasks/store/task-internal.effects.ts:174 | Over a list split around positions `lo..hi`, the scan takes the first candidate at or after `hi`. |
| `NextTask.ScanBackward` | src/app/features/tasks/store/task-internal.effects.ts:174-175 | With no candidate from `hi` on, the scan takes the last candidate before `lo`. |
| `NextTask.ScanNone` | src/app/features/tasks/store/task-internal.effects.ts:174-176 | The scan finds nothing exactly when no entry outside `lo..hi` is a candidate. |
| `NextTask.FallbackCandidate` | src/app/features/tasks/store/task-internal.effects.ts:168-177 | The linear scan yields only undone tasks other than the old one, and only leaves in a two-level tree. |
| `NextTask.FindNextTask` | src/app/features/tasks/store/task-internal.effects.ts:147-191 | Any task it returns exists and is not done. Given an old id, the result differs from it. In a two-level tree the result is a leaf. |
| `NextTask.FindReversedIsLast` | src/app/features/tasks/store/task-internal.effects.ts:175 | Searching the reversed list finds the last candidate of the original list. |
| `NextTask.FallbackSplit` | src/app/features/tasks/store/task-internal.effects.ts:169-173 | Say the old task is first found at index `i` of today's list. The flattened slices are the parts of the whole flattened list before and after the block that entry `i` occupies. |
| `NextTask.FallbackAround` | src/app/features/tasks/store/task-internal.effects.ts:168-176 | With no sibling to take, the result is the scan around that block. |
| `NextTask.FallbackForward` | src/app/features/tasks/store/task-internal.effects.ts:168-175 | With no sibling to take, the first candidate after the old task's block is chosen. |
| `NextTask.FallbackBackward` | src/app/features/tasks/store/task-internal.effects.ts:174-175 | If nothing after the block qualifies, the last candidate before the block is chosen. |
| `NextTask.FallbackNone` | src/app/features/tasks/store/task-internal.effects.ts:168-177 | With no sibling to take, the result is none exactly when no entry outside the old task's block is a candidate. |
| `NextTask.FallbackWhenNotToday` | src/app/features/tasks/store/task-internal.effects.ts:169-175 | For an old task that is not in today's list (index -1), the result is the first candidate of the whole flattened list. |
| `NextTask.ColdStart` | src/app/features/tasks/store/task-internal.effects.ts:179-187 | With no old task, it returns the remembered task if that is an existing undone leaf. Otherwise it returns the first undone flattened entry, or none when all are done. |
| `TaskInternalEffects.Decide` | src/app/features/tasks/store/task-internal.effects.ts:58-99 | ToggleStart clears an active task and otherwise cold-starts. UpdateTask reacts exactly when `isDone` is truthy and the task is current. MoveToBacklog, and Move to `BACKLOG`, clear exactly when the moved task is current. DeleteTask re-emits the current id. Archive and other-project moves propose none, which is `SetCurrentTask(undefined)`. Every other action is no update. |
| `TaskInternalEffects.DecisionKeepsActiveSelectable` | src/app/features/tasks/store/task-internal.effects.ts:62-99 | In a two-level tree, and for every action except a deletion, the switch proposes none or an undone leaf. It never re-proposes the task just marked done. A deletion re-emits the current id unchanged, so the proposal is an undone leaf only when the current task is one. |
| `TaskInternalEffects.AutoSetNextTask` | src/app/features/tasks/store/task-internal.effects.ts:101-105 | It emits at most one `SetCurrentTask`, carrying the decision. It emits nothing for no update, and also when the chosen id is the string `NO_UPDATE`. |
| `TaskInternalEffects.AutoSetNextTaskTagged` | src/app/features/tasks/store/task-internal.effects.ts:101-105 | It emits nothing exactly on no update. Otherwise it emits `SetCurrentTask` of the decision. |
| `TaskInternalEffects.TaggedAgreesOffSentinel` | src/app/features/tasks/store/task-internal.effects.ts:101-105 | The two emitters agree whenever the chosen id is not `NO_UPDATE`. |
| `TaskInternalEffects.SentinelIdIsDropped` | src/app/features/tasks/store/task-internal.effects.ts:91-104 | Take a current task whose id is `NO_UPDATE` and delete it. The switch re-emits the id, but the effect as written emits nothing. |
| `TaskInternalEffects.UndoneIds` | src/app/features/tasks/store/task-internal.effects.ts:32 | The filter keeps exactly the undone ids. It is empty exactly when every id is done. |
| `TaskInternalEffects.OnAllSubTasksDone` | src/app/features/tasks/store/task-internal.effects.ts:16-41 | An update is emitted only when four things hold: the setting is on, `isDone` is truthy, the task has a parent, and every subtask of that parent is done. The update is then exactly `UpdateTask(parent, {isDone: true})`. |
| `TaskInternalEffects.RoundTask` | src/app/features/tasks/store/task-internal.effects.ts:122-135 | The update targets the task, changes only the day map, writes the rounded value under `day` and keeps every other day. |
| `TaskInternalEffects.RoundedUpdates` | src/app/features/tasks/store/task-internal.effects.ts:120-136 | There are never more updates than tasks. |
| `TaskInternalEffects.RoundedUpdatesContents` | src/app/features/tasks/store/task-internal.effects.ts:120-136 | Every update rounds some leaf task that has time on `day`, and every such task is rounded by some update. |
| `TaskInternalEffects.RoundedUpdatesAppend` | src/app/features/tasks/store/task-internal.effects.ts:120-122 | The batch distributes over concatenation, so the updates follow the order of the tasks. |
| `TaskInternalEffects.ParentsNeverRounded` | src/app/features/tasks/store/task-internal.effects.ts:120-122 | A task with subtasks is never updated, even with time recorded on the day, as long as its id is unique. |
| `TaskInternalEffects.RoundTimesSpentForDay` | src/app/features/tasks/store/task-internal.effects.ts:110-137 | Nothing is emitted unless the action is a day rounding with a truthy day and unit. In that case the batch runs over the worked-on tasks. |
| `JiraIssueMap.RegexSchemeAtFirstColon` | src/app/features/issue/jira/jira-issue/jira-issue-map.util.ts:16 | `/(^[^:]+):\/\//` matches exactly when a non-empty scheme ends at the first colon and `://` follows it. |
| `JiraIssueMap.MatchesProtocol` | src/app/features/issue/jira/jira-issue/jira-issue-map.util.ts:72 | The first-colon test that stands for `fullLink.match(matchProtocolRegEx)` is true exactly when the regular expression of line 16 matches. |
| `JiraIssueMap.ProtocolSurvivesAppend` | src/app/features/issue/jira/jira-issue/jira-issue-map.util.ts:16 | A scheme at the start survives anything appended. |
| `JiraIssueMap.MakeIssueUrl` | src/app/features/issue/jira/jira-issue/jira-issue-map.util.ts:70-76 | The result is `host + '/browse/' + key` when that has a scheme, and `https://` followed by it otherwise. The result always has a scheme. |
| `JiraIssueMap.HostWithProtocolKept` | src/app/features/issue/jira/jira-issue/jira-issue-map.util.ts:71-75 | A host that already has a scheme is used as it is. |
| `JiraIssueMap.MapAuthor` | src/app/features/issue/jira/jira-issue/jira-issue-map.util.ts:79-89 | A missing author gives null. Otherwise `self` and `avatarUrls` are cleared, the other properties are copied, and `avatarUrl` is the 48x48 avatar when it exists. |
| `JiraIssueMap.MapAuthorForgets` | src/app/features/issue/jira/jira-issue/jira-issue-map.util.ts:79-89 | Two authors that agree on their other properties and their 48x48 avatar map to the same author. |
| `JiraIssueMap.MapAttachment` | src/app/features/issue/jira/jira-issue/jira-issue-map.util.ts:90-95 | `self` and `author` are cleared, and every other field is copied. |
| `JiraIssueMap.MapAttachmentIdempotent` | src/app/features/issue/jira/jira-issue/jira-issue-map.util.ts:90-95 | Mapping an already-mapped attachment changes nothing. |
| `JiraIssueMap.MapAttachmentType` | src/app/features/issue/jira/jira-issue/jira-issue-map.util.ts:138-149 | The result is `IMG` exactly for `image/gif`, `image/jpeg` and `image/png`, and `LINK` for every other string. |
| `JiraIssueMap.MapJiraAttachmentToAttachment` | src/app/features/issue/jira/jira-issue/jira-issue-map.util.ts:104-114 | The id is null and the title is the file name. The path is the thumbnail when it is non-empty and the content otherwise. The original image path is the content. The type is `IMG` exactly for image MIME types. |
| `JiraIssueMap.MapComments` | src/app/features/issue/jira/jira-issue/jira-issue-map.util.ts:96-102 | `self` and `updateAuthor` are cleared, the author is mapped (null stays null), and the other properties are copied. |
| `JiraIssueMap.HistoryEntries` | src/app/features/issue/jira/jira-issue/jira-issue-map.util.ts:123-131 | Each history contributes one entry per item. |
| `JiraIssueMap.ToEntry` | src/app/features/issue/jira/jira-issue/jira-issue-map.util.ts:124-130 | The pushed entry takes `field`, `from` from `fromString` and `to` from `toString` of the item, and `created` and the mapped author of its history. |
| `JiraIssueMap.MapHistories` | src/app/features/issue/jira/jira-issue/jira-issue-map.util.ts:122-133 | The flattened changelog has as many entries as all histories have items together. |
| `JiraIssueMap.MapChangelog` | src/app/features/issue/jira/jira-issue/jira-issue-map.util.ts:116-134 | A null or absent changelog gives the empty list. Otherwise the length is the sum of all `items` lengths. |
| `JiraIssueMap.MapHistoriesAt` | src/app/features/issue/jira/jira-issue/jira-issue-map.util.ts:122-133 | The two nested loops put item `j` of history `h` at position (items of earlier histories) + `j`, as that item's entry. |
| `JiraIssueMap.ChangelogEntryAt` | src/app/features/issue/jira/jira-issue/jira-issue-map.util.ts:122-133 | Item `j` of history `h` sits at position (items of earlier histories) + `j`, so entries are ordered by history and then by item. It copies `field`, takes `from`/`to` from `fromString`/`toString`, and takes `created` and the mapped author from its history. |

## Left out

- The RxJS/NgRx machinery (`ofType`, `withLatestFrom`, `mergeMap`, `EMPTY`/`of`, `@Effect`, the injected constructor) is not modelled. Each effect is a function of the action and the snapshot, and `ofType` filtering is the `OtherAction`/no-update branch.
- The rounding utility `roundDurationVanilla` lives in a file that is not part of this model. It is the parameter `round`, and only its result being written under `day` is stated.
- The selectors `selectTasksWorkedOnOrDoneFlat` and `selectMiscConfig` are not part of this model. Their outputs are inputs: a `seq<Task>` and an `Option<MiscConfig>`.
- `mapIssue` is left out because it reads the clock (`Date.now()`).
- `mapToSearchResults` is left out because it depends on `dedupeByKey`, which is not part of this model.
- `mapResponse`, `mapIssueResponse`, `mapIssuesResponse` and `mapTransitionResponse` are left out. They only read fields of untyped responses.
- The `DropPasteIcons` lookup is left out, so the app attachment has no `icon` field.
- `config.module.ts` is left out because it only registers an Angular module and holds no logic.
- Ids are non-empty strings (`TaskTree.Id`). The JavaScript falsiness of an empty id is therefore not modelled.
- `null` and `undefined` are both `None`, so `SetCurrentTask(null)` and `SetCurrentTask(undefined)` are one command.
- A lookup of an id missing from `entities` throws in the source. The model requires `TaskTree.Valid` (today's, subtask and parent ids all exist) instead. `OnAllSubTasksDone` requires the updated task to exist only when the filter reaches that lookup.
- A present changelog without `histories`, and an author without `avatarUrls`, would throw in the source. They are excluded by the record types.
- Numbers are integers: `NaN` and fractional durations or units are not modelled. A missing action payload is not modelled either.
- Record properties that the helpers never touch are one `string → string` map (`otherProps`). Their names and value types are not modelled.
- The order between the three effects' emissions, and how the store applies them, is outside this model.
- `TaskTree.FlattenToSelectable`: its own contract only states that the ids exist and bounds the length. What it contains is stated by `FlattenContents`, and order by `FlattenAppend` and `FlattenAround`.
- `isDone` is always a boolean. The source tests it two ways, `isDone === false` for siblings and `!isDone` in the scan, and these would differ for a task without `isDone`.
- `TaskInternalEffects.RoundedUpdates`: its own contract only bounds the length. The content and order are stated by `RoundedUpdatesContents` and `RoundedUpdatesAppend`.

## Findings

| source | as written | input that shows it | evidently intended | confidence | as-written member | corrected member |
|---|---|---|---|---|---|---|
| src/app/features/tasks/store/task-internal.effects.ts:60-104 | "No update" is the string `'NO_UPDATE'`, stored in the same variable as the next task id and compared by value. | A current task whose id is `NO_UPDATE` is deleted. The switch re-emits that id, but the effect emits nothing (`TaskInternalEffects.SentinelIdIsDropped`). | "No update" should be distinct from every task id. | low: not executed; generated ids never equal that string | `TaskInternalEffects.AutoSetNextTask` | `TaskInternalEffects.AutoSetNextTaskTagged` |
