# vantage: a verified model of the tower-project tracker's core

vantage tracks telecom-tower projects. Each project sits at a site and moves
through configurable statuses. Each status carries a checklist of steps, and
completing steps moves the project forward. This Dafny project models the
logic of that tracker, leaving out the user interface and the database.

- **GPS text layer** (`coordinates.dfy`). The coordinate pattern is
  recognised by hand-written code. The model covers the whitespace and comma
  cleaning of `normalizeGpsCoordinates`, `validateGpsFormat`, and
  `parseCoordinates`. Seconds are integer thousandths and decimal degrees are
  exact `real`s.
- **Status progression** (`project_steps.dfy`). This is the rule of
  `checkAndUpdateProjectStatus` that picks a project's status from its
  completed steps. A `ProjectRecord` class updates the stored project
  through `completeProjectStep` and `uncompleteProjectStep`.
- **Fixed lifecycle** (`lifecycle.dfy`). This is the six-value
  `ProjectStatus` enumeration with its next, previous, editable, text and
  colour lookups.
- **Progress and classification** (`progress.dfy`, `checklist.dfy`). These
  are the percentages and current/past flags of `ProjectProgress` and
  `ProjectChecklist`, and the checklist's toggle handler.
- **Status configuration** (`status_model.dfy`, `project_statuses.dfy`,
  `settings.dfy`):
  - the records of `src/types/index.ts`;
  - the row mapping, grouping and position arithmetic of the status API;
  - the settings page as a class whose `statuses` list each handler rewrites.
- **Reorders** (`list_moves.dfy`, `status_list.dfy`, `status_steps_list.dfy`,
  `dashboard.dfy`, `reorder.dfy`):
  - the splice-based moves and cell swaps, done on arrays and proved equal
    to sequence functions;
  - the renumbering;
  - the step editor;
  - the dashboard's search and "recent" lists;
  - the flow from each reorder into `reorderProjectStatuses`.
- **Project wizard** (`wizard.dfy`). This is the three-step creation form,
  modelled as a class with `currentStep`, `formData` and `searchQuery`,
  together with its site picker.
- **Statistics** (`statistics.dfy`). This is the per-status project count,
  computed by a loop.

Remote calls, clocks and user confirmations become parameters:
- a flag for a call that may fail;
- an `Option` for data that may fail to load;
- a string for "now".

Where the code and the usual description of it differ, the model follows the
code:
- `normalizeGpsCoordinates` is idempotent only on input that matches the
  pattern (`Coordinates.NormalizeNotIdempotent`).
- `isStatusEditable` holds for any string outside the enumeration
  (`Lifecycle.EditableOutside`).
- `handleApiError` always throws. So a failed insert or delete in
  `completeProjectStep`/`uncompleteProjectStep` skips the status recompute.
- The settings page stores only the regular statuses after a reorder
  (`Settings.ReorderDropsEnds`).
- The overall progress exceeds 100 when the completed list repeats an id
  (`Progress.OverallProgressDuplicates`).

## Model

| member | source | states |
|---|---|---|
| Coordinates.Trim | src/lib/utils/coordinates.ts:9 | the result is a slice of the input with only whitespace cut off either end, and it neither starts nor ends with whitespace |
| Coordinates.ReplaceCommas | src/lib/utils/coordinates.ts:10 | no comma is left and the characters other than whitespace and commas are unchanged, in order |
| Coordinates.Collapse | src/lib/utils/coordinates.ts:11 | the result has only single plain spaces, is no longer than the input, keeps every non-space character in order, is empty only for empty input and starts with a space exactly when the input starts with whitespace |
| Coordinates.CollapseNoComma | src/lib/utils/coordinates.ts:11 | collapsing whitespace introduces no comma |
| Coordinates.ReplaceCommasRuns | src/lib/utils/coordinates.ts:10 | read as "each maximal run of whitespace and commas becomes one space", the text after the comma replace means the same as before it |
| Coordinates.CollapseRuns | src/lib/utils/coordinates.ts:11 | on comma-free text the whitespace collapse is exactly that reading: each whitespace run becomes one space where it stood |
| Coordinates.Cleaned | src/lib/utils/coordinates.ts:8-11 | the text the pattern is matched against has no comma, only single spaces, and the same other characters as the trimmed input |
| Coordinates.CleanedRuns | src/lib/utils/coordinates.ts:8-11 | the cleaned text is the trimmed input with each maximal run of whitespace and commas turned into one space |
| Coordinates.Normalize | src/lib/utils/coordinates.ts:5-19 | a non-empty input whose cleaned text does not match comes back as its trimmed text with each whitespace and comma run turned into one space |
| Coordinates.NormalizeMatchText | src/lib/utils/coordinates.ts:8-18 | the text of any well-formed match, with any separator the pattern allows (`50°41'14.388"N , 13°58'40.115"E`), normalizes to the canonical text of that match |
| Coordinates.MatchSeconds | src/lib/utils/coordinates.ts:3 | an accepted prefix is the text of well-formed seconds (1-2 digits, optional 1-3 fraction digits) followed by `"` |
| Coordinates.MatchAngle | src/lib/utils/coordinates.ts:3 | an accepted prefix is the text of a well-formed half: degrees of the allowed digit count, minutes, seconds and one of the two hemisphere letters |
| Coordinates.MatchSeparator | src/lib/utils/coordinates.ts:3 | the separator scanned is whitespace, at most one comma, whitespace |
| Coordinates.MatchGps | src/lib/utils/coordinates.ts:3 | soundness: whatever the recogniser accepts is exactly the text of a well-formed match |
| Coordinates.MatchGpsComplete | src/lib/utils/coordinates.ts:3 | completeness: every well-formed match is accepted, with the same eight captures and separator |
| Coordinates.NoMatchWithoutDigit | src/lib/utils/coordinates.ts:3 | a text that does not start with a digit never matches |
| Coordinates.CanonicalIsNormal | src/lib/utils/coordinates.ts:17-18 | the canonical text of a match matches again with the same captures and a single-space separator, and normalization leaves it unchanged |
| Coordinates.NormalizeIdempotentOnMatch | src/lib/utils/coordinates.ts:13-18 | when the cleaned input matches, the output is the canonical text of that match and normalizing it again changes nothing |
| Coordinates.NormalizeNotIdempotent | src/lib/utils/coordinates.ts:8-14 | `"a,"` normalizes to `"a "`, which normalizes to `"a"`, so normalization is not idempotent on non-matching text |
| Coordinates.CleanedEmpty | src/lib/utils/coordinates.ts:6 | cleaning the empty text gives the empty text |
| Coordinates.Validate | src/lib/utils/coordinates.ts:119-122 | an accepted non-empty value is, once trimmed, the text of a well-formed match |
| Coordinates.ValidateIff | src/lib/utils/coordinates.ts:119-122 | validation holds exactly for the empty value and for values whose trimmed text is a well-formed match; no numeric range is checked |
| Coordinates.ValidateNormalized | src/lib/utils/coordinates.ts:119-122 | whenever normalization produces a match, validation accepts its output |
| Coordinates.SecMillis | src/lib/utils/coordinates.ts:41-42 | the seconds in thousandths have the whole seconds as their integer part |
| Coordinates.ParseMatch | src/lib/utils/coordinates.ts:34-61 | on success latitude is within ±90 and longitude within ±180; the only failure is out of range |
| Coordinates.DegreesWithin | src/lib/utils/coordinates.ts:57-59 | with minutes and seconds below 60, the magnitude is within the limit exactly when the degrees are below it, or equal to it with zero minutes and seconds |
| Coordinates.ParseMatchOutcome | src/lib/utils/coordinates.ts:44-61 | success exactly when every field and the magnitudes are in range; then the result is `deg + min/60 + sec/3600`, negated for S and for W |
| Coordinates.Parse | src/lib/utils/coordinates.ts:21-62 | a successful parse lies within ±90 latitude and ±180 longitude |
| Coordinates.ParseOutcome | src/lib/utils/coordinates.ts:21-62 | empty input fails as missing, input whose normalization does not match fails as invalid format, otherwise the result or the out-of-range error follows the range checks |
| Coordinates.ParseSign | src/lib/utils/coordinates.ts:53-54 | a negative latitude only comes from S and a negative longitude only from W; S and W never give a positive value |
| Coordinates.ParseDependsOnNormalization | src/lib/utils/coordinates.ts:26-29 | two non-empty inputs with the same normalization parse to the same result |
| Coordinates.JustOverNinety | src/lib/utils/coordinates.ts:44-59 | `90°00'00.001"N` passes the field range check yet is rejected as out of range |
| Lifecycle.IndexOf | src/lib/utils/projectStatus.ts:41 | `indexOf` gives -1 exactly for a missing string, otherwise the first index holding it |
| Lifecycle.OrderIsLifecycle | src/lib/utils/projectStatus.ts:32-39 | each member of the enumeration is found at its lifecycle rank: new, preparation, approval, implementation, documentation, completed |
| Lifecycle.NextStatus | src/lib/utils/projectStatus.ts:31-47 | null exactly for `completed` and unknown strings; otherwise the successor in the order; never `new` |
| Lifecycle.PreviousStatus | src/lib/utils/projectStatus.ts:49-65 | null exactly for `new`, `preparation` and unknown strings; otherwise the predecessor; never `new` |
| Lifecycle.NextOfPrevious | src/lib/utils/projectStatus.ts:31-65 | stepping back and then forward returns to the start |
| Lifecycle.PreviousOfNext | src/lib/utils/projectStatus.ts:31-65 | stepping forward and then back returns to the start for preparation through documentation |
| Lifecycle.PreviousOfNextNew | src/lib/utils/projectStatus.ts:31-65 | from `new` the round trip fails: next is preparation, whose previous is null |
| Lifecycle.IsEditable | src/lib/utils/projectStatus.ts:27-29 | editable exactly when the status is at neither end of the lifecycle order; a string outside the order is editable |
| Lifecycle.EditableMiddle | src/lib/utils/projectStatus.ts:27-29 | a member is editable exactly when it is one of the four middle statuses |
| Lifecycle.EditableOutside | src/lib/utils/projectStatus.ts:27-29 | a string outside the enumeration counts as editable |
| Lifecycle.TextAndColorDistinct | src/lib/utils/projectStatus.ts:3-25 | text and colour are non-empty for every member and differ between any two members |
| ProjectSteps.FirstIncomplete | src/lib/api/projectSteps.ts:84-96 | the index of the first status with an unfinished step: every earlier status is finished, and the one there (if any) is not |
| ProjectSteps.CurrentStatusCode | src/lib/api/projectSteps.ts:80-97 | the loop yields the code of the first status with an unfinished step, or `new` when none has one |
| ProjectSteps.Decide | src/lib/api/projectSteps.ts:60-97 | a decision for a regular status names a regular status by position, and its code |
| ProjectSteps.DecideOn | src/lib/api/projectSteps.ts:64-96 | `completed` only when there is a regular step and every one is done; a status decision names a status with an unfinished step after only finished ones |
| ProjectSteps.UpdateFor | src/lib/api/projectSteps.ts:71-102 | `completed` is written with today's end date exactly when all steps are done; any other status is written only when it differs from the stored one, and nothing is written when it is already stored |
| ProjectSteps.DecideStatusUpdate | src/lib/api/projectSteps.ts:60-102 | the write asked for is the one the decision rule and the stored status call for |
| ProjectSteps.LoopAlwaysBreaks | src/lib/api/projectSteps.ts:83-97 | when some but not all regular steps are done, the loop always breaks, so the fall-through to `new` is unreachable |
| ProjectSteps.DecideAllDone | src/lib/api/projectSteps.ts:64-77 | the answer is `completed` exactly when a regular step exists and every regular step id is completed |
| ProjectSteps.DecideNotStarted | src/lib/api/projectSteps.ts:80-83 | the answer is `new` exactly when no regular step id is completed, including when there are no regular steps |
| ProjectSteps.DecideAtStatus | src/lib/api/projectSteps.ts:84-96 | otherwise the answer is the first regular status by position with an unfinished step; it has steps and all earlier ones are finished |
| ProjectSteps.DecideCodeRange | src/lib/api/projectSteps.ts:71-96 | the code written is the literal `new`, the literal `completed`, or the code of a regular status |
| ProjectSteps.DecideMembershipOnly | src/lib/api/projectSteps.ts:64-68 | two completed lists that agree on membership of the regular step ids give the same decision; order, repeats and other ids are irrelevant |
| ProjectSteps.DecideMonotone | src/lib/api/projectSteps.ts:79-96 | a larger completed set never gives an earlier decision in the order new < regular statuses by position < completed |
| ProjectSteps.Without | src/lib/api/projectSteps.ts:22-25 | the delete by match leaves no row for the step and keeps every other step id |
| ProjectSteps.ProjectRecord.CheckAndUpdateProjectStatus | src/lib/api/projectSteps.ts:48-107 | status and end date after the call: unchanged after a failed read or write; otherwise `completed` with the end date whatever the stored status, any other decided status only when it differs, and the end date kept |
| ProjectSteps.ProjectRecord.CompleteProjectStep | src/lib/api/projectSteps.ts:6-19 | a failed insert changes nothing; a successful one appends the step id and leaves status and end date as the recomputation from the new list decides, unchanged when a read or the write fails |
| ProjectSteps.ProjectRecord.UncompleteProjectStep | src/lib/api/projectSteps.ts:21-32 | a failed delete changes nothing; a successful one removes every row of the step and leaves status and end date as the recomputation from the new list decides, unchanged when a read or the write fails |
| Progress.RoundedPercent | src/components/ProjectProgress.tsx:23 | the whole percent nearest to `100c/n`, halves up; it is 0 for none done, 100 for all done and at most 100 for `c <= n` |
| Progress.OverallProgress | src/components/ProjectProgress.tsx:11-24 | 0 with no regular steps and 0 when no completed entry is a regular step id |
| Progress.OverallProgressBounded | src/components/ProjectProgress.tsx:19-23 | the overall progress is at most 100 when the completed list has no repeated id |
| Progress.OverallProgressDuplicates | src/components/ProjectProgress.tsx:19-23 | with one regular step completed twice the overall progress is 200 |
| Progress.OverallProgressOrderIndependent | src/components/ProjectProgress.tsx:13-23 | the overall progress depends neither on the order of the statuses nor on the order of the completed list |
| Progress.ChecklistTotal | src/components/ProjectChecklist.tsx:80-90 | the checklist total is 0 with no regular steps |
| Progress.ChecklistTotalAgrees | src/components/ProjectChecklist.tsx:84-90 | the checklist's total, computed over the sorted statuses, equals the progress component's figure |
| Progress.StatusProgress | src/components/ProjectProgress.tsx:26-34 | in 0..100; 0 for a status without steps or with none done; 100 when all its steps are done |
| Progress.StatusProgressMonotone | src/components/ProjectChecklist.tsx:95-101 | completing more steps never lowers a status's percentage |
| Progress.HundredBeforeDone | src/components/ProjectProgress.tsx:33 | 200 of 201 steps done already shows 100 percent |
| Progress.CodeIndex | src/components/ProjectProgress.tsx:59-60 | `findIndex` by code: -1 exactly when no status has the code, otherwise the first index with it |
| Progress.IsPast | src/components/ProjectProgress.tsx:59-60 | a past status is never the current one, and a status is past only when some status has the current code |
| Progress.ActiveExcludesPast | src/components/ProjectProgress.tsx:58-60 | the current status is never also shown as past |
| Progress.NoPastWithoutCurrent | src/components/ProjectProgress.tsx:59-60 | when no status has the current code, no status is past |
| Progress.PastIffLater | src/components/ProjectChecklist.tsx:103-105 | with unique codes, a status is past exactly when the current status sits at a later index |
| Progress.CodeIndexUnique | src/components/ProjectChecklist.tsx:104-105 | with unique codes, each status's code is found at its own index |
| Checklist.ActionFor | src/components/ProjectChecklist.tsx:60-64 | uncomplete exactly when the step id is in the shown list, complete otherwise |
| Checklist.ChecklistView.constructor | src/components/ProjectChecklist.tsx:15-16 | both lists start empty |
| Checklist.ChecklistView.LoadCompletedSteps | src/components/ProjectChecklist.tsx:19-32 | the shown list is the stored one, or empty (never stale) after a failed read |
| Checklist.ChecklistView.HandleStepToggle | src/components/ProjectChecklist.tsx:58-69 | on success the stored membership of exactly that step flips, the list is reloaded and the stored status and end date are the recomputed ones; on failure neither list, status nor end date changes |
| StatusModel.ByPosition | src/components/ProjectProgress.tsx:37 | the sorted copy is a permutation of the statuses in ascending position order |
| StatusModel.StepsByPosition | src/lib/api/projectStatuses.ts:14 | the steps sorted: a permutation in ascending position order |
| StatusModel.RegularByPosition | src/components/ProjectChecklist.tsx:80-81 | only regular statuses, all of them, in ascending position order |
| StatusModel.CompletedCount | src/lib/api/projectSteps.ts:86-88 | the count of completed steps is at most the step count, equals it exactly when all are done and is 0 exactly when none is |
| StatusModel.CompletedCountMembership | src/lib/api/projectSteps.ts:86-88 | the count depends only on which ids are in the completed list |
| StatusModel.CompletedCountMonotone | src/lib/api/projectSteps.ts:86-88 | more completed ids never lower the count |
| StatusModel.InStepsOf | src/lib/api/projectSteps.ts:65 | a step is in the `flatMap` exactly when it belongs to one of the statuses |
| StatusModel.StepsOfPermutationLength | src/components/ProjectProgress.tsx:13-15 | the number of steps does not depend on the order of the statuses |
| ProjectStatuses.Falsy | src/lib/api/projectStatuses.ts:8 | null and the empty description become absent; any other text is kept |
| ProjectStatuses.MapStep | src/lib/api/projectStatuses.ts:17-23 | the step keeps id, status id, name and position and drops a falsy description |
| ProjectStatuses.MapStepInjective | src/lib/api/projectStatuses.ts:17-23 | distinct step rows (without empty descriptions) map to distinct steps |
| ProjectStatuses.MapStatus | src/lib/api/projectStatuses.ts:4-15 | each column renamed, a falsy description dropped, the steps a sorted permutation of the mapped rows, and no steps when none are given |
| ProjectStatuses.MapRows | src/lib/api/projectStatuses.ts:44-45 | each status row mapped with the step rows that name it |
| ProjectStatuses.GetProjectStatuses | src/lib/api/projectStatuses.ts:25-47 | nothing when either read fails; otherwise a permutation of the mapped rows in ascending position order |
| ProjectStatuses.GroupingExact | src/lib/api/projectStatuses.ts:44-46 | each resulting status comes from a fetched row, and a step row is among its steps exactly when its `status_id` is the status's id |
| ProjectStatuses.OwnStepsExact | src/lib/api/projectStatuses.ts:45 | a status mapped with its filtered rows holds exactly the steps naming it |
| ProjectStatuses.NewStatusPosition | src/lib/api/projectStatuses.ts:57-65 | one more than the highest regular position, with a missing or zero highest counting as 1; above every regular position |
| ProjectStatuses.CreateProjectStatus | src/lib/api/projectStatuses.ts:49-87 | nothing when the insert fails; otherwise a regular status without steps, with the given fields, at the position one above the highest regular position |
| ProjectStatuses.ReorderRows | src/lib/api/projectStatuses.ts:133-158 | the row for the status at index `i` has position `i + 1` and keeps every other field |
| ProjectStatuses.ReorderRowsKeepingPositions | src/lib/api/projectStatuses.ts:135-145 | corrected reorder: every row keeps the status's fields, position included |
| ProjectStatuses.DeleteProjectStatus | src/lib/api/projectStatuses.ts:121-131 | exactly the rows with that id and type regular are removed; initial and final rows always remain |
| ProjectStatuses.DeleteKeepsInitialAndFinal | src/lib/api/projectStatuses.ts:121-126 | the number of initial (or final) statuses is the same after any delete |
| Settings.ReplaceStatus | src/pages/Settings.tsx:37 | the statuses with the id become the updated one; every other status stays in its place |
| Settings.ReplaceStatusOne | src/pages/Settings.tsx:37 | with distinct ids the update writes exactly one cell |
| Settings.ReplaceStatusAbsent | src/pages/Settings.tsx:37 | an id not in the list changes nothing |
| Settings.RemoveStatus | src/pages/Settings.tsx:61 | no status with the id is left, every other status is kept, and the list shrinks by the number that had the id |
| Settings.RemoveStatusOne | src/pages/Settings.tsx:61 | with distinct ids the delete removes exactly that cell and keeps the order of the rest |
| Settings.AddStepTo | src/pages/Settings.tsx:79-83 | the new step is appended to the steps of the matching status only |
| Settings.AddStepCount | src/pages/Settings.tsx:79-83 | the total number of steps grows by the number of statuses carrying the id |
| Settings.ReplaceStep | src/pages/Settings.tsx:94-96 | the steps with the id become the updated one; the others stay |
| Settings.ReplaceStepEverywhere | src/pages/Settings.tsx:92-97 | each status keeps everything except that the step is replaced in its steps |
| Settings.ReplaceStepEverywhereSteps | src/pages/Settings.tsx:92-97 | seen as one list of steps, the update replaces the step wherever it occurs |
| Settings.DeleteStepEverywhere | src/pages/Settings.tsx:106-109 | each status keeps everything except that the step is filtered out of its steps |
| Settings.DeleteStepEverywhereSteps | src/pages/Settings.tsx:106-109 | seen as one list of steps, the delete removes the step wherever it occurs and keeps the rest in order |
| Settings.ReplaceStepsOf | src/pages/Settings.tsx:120-122 | the matching status gets the new steps list wholesale; no other status changes |
| Settings.SectionsOf | src/pages/Settings.tsx:136-138 | initial is the first initial status (absent if none), final the first final one, regular exactly the regular statuses |
| Settings.ReorderDropsEnds | src/pages/Settings.tsx:67-71 | after a reorder from the status list the page holds no initial and no final status |
| Settings.SettingsPage.constructor | src/pages/Settings.tsx:13-17 | empty list, no status being edited, dialog closed, loading |
| Settings.SettingsPage.LoadStatuses | src/pages/Settings.tsx:19-32 | the fetched list replaces the old one, a failed fetch keeps it, and loading ends either way |
| Settings.SettingsPage.HandleStatusUpdate | src/pages/Settings.tsx:34-42 | on success the status is replaced and editing closes; on failure nothing changes |
| Settings.SettingsPage.HandleStatusCreate | src/pages/Settings.tsx:44-52 | on success the new status is appended and the dialog closes; on failure nothing changes |
| Settings.SettingsPage.HandleStatusDelete | src/pages/Settings.tsx:54-65 | the status is removed only when confirmed and deleted remotely |
| Settings.SettingsPage.HandleStatusReorder | src/pages/Settings.tsx:67-74 | on success the list becomes the reordered list; on failure nothing changes |
| Settings.SettingsPage.HandleAddStep | src/pages/Settings.tsx:76-87 | on success the step is appended to its status; on failure nothing changes |
| Settings.SettingsPage.HandleUpdateStep | src/pages/Settings.tsx:89-101 | on success the step is replaced in every status; on failure nothing changes |
| Settings.SettingsPage.HandleDeleteStep | src/pages/Settings.tsx:103-113 | on success the step is removed from every status; on failure nothing changes |
| Settings.SettingsPage.HandleReorderSteps | src/pages/Settings.tsx:115-126 | when every position update succeeds the status's steps are replaced; otherwise nothing changes |
| ListMoves.Moved | src/components/StatusList.tsx:25-26 | the two splices: the moved element lands at the new index and those in between shift one place towards the old one |
| ListMoves.Swap | src/pages/Dashboard.tsx:85-86 | cells `i` and `j` exchanged, every other cell unchanged |
| ListMoves.Renumbered | src/components/StatusList.tsx:29-32 | each element gets base plus its index as position |
| ListMoves.AdjacentMoveIsSwap | src/components/StatusList.tsx:23-26 | a move to a neighbouring index is the swap of the two cells |
| ListMoves.MovedPermutation | src/components/StatusList.tsx:24-26 | a move keeps the multiset of elements |
| ListMoves.MoveBack | src/components/StatusList.tsx:23-26 | moving back to where it came from restores the list |
| ListMoves.SwapTwice | src/pages/Dashboard.tsx:85-86 | a swap undoes itself |
| ListMoves.SwapPermutation | src/pages/Dashboard.tsx:85-86 | a swap keeps the multiset of elements |
| ListMoves.RenumberedMoveKeys | src/components/StatusList.tsx:24-32 | a move followed by renumbering keeps the multiset of ids |
| ListMoves.RenumberedMoveBack | src/components/StatusList.tsx:24-32 | moving back after a move, renumbering each time, gives the original list renumbered |
| ListMoves.SpliceMove | src/components/StatusList.tsx:25-26 | the array after the two splices holds the moved sequence |
| ListMoves.SwapCells | src/pages/Dashboard.tsx:85-86 | the array after the destructuring swap holds the swapped sequence |
| ListMoves.Renumber | src/components/StatusList.tsx:29-32 | the array after the loop holds the renumbered sequence |
| ListMoves.Copy | src/components/StatusList.tsx:24 | a fresh array holding the list |
| StatusList.MoveStatusResult | src/components/StatusList.tsx:15-35 | nothing for a move past either end; otherwise the neighbours swapped and positions 2, 3, ... in list order |
| StatusList.MoveStatus | src/components/StatusList.tsx:15-35 | the array-based handler returns what `MoveStatusResult` describes |
| StatusList.MoveStatusPermutation | src/components/StatusList.tsx:24-26 | a move keeps the length and the multiset of status ids |
| StatusList.MoveUpThenDown | src/components/StatusList.tsx:23-32 | moving up and then down from the new index gives the original order, renumbered from 2 |
| StatusStepsList.MoveStepResult | src/components/StatusStepsList.tsx:113-132 | nothing for a move past either end; otherwise the neighbours swapped and positions 0..n-1 in list order |
| StatusStepsList.MoveStep | src/components/StatusStepsList.tsx:113-132 | the array-based handler returns what `MoveStepResult` describes |
| StatusStepsList.MoveStepPermutation | src/components/StatusStepsList.tsx:122-124 | a move keeps the length and the multiset of step ids |
| StatusStepsList.MoveDownThenUp | src/components/StatusStepsList.tsx:121-129 | moving down and then up gives the original order, renumbered from 0 |
| StatusStepsList.NewStepAfterRenumbered | src/components/StatusStepsList.tsx:97 | a new step's position is past every position a renumbered list holds |
| StatusStepsList.StepEditor.constructor | src/components/StatusStepsList.tsx:87-88 | neither form is open |
| StatusStepsList.StepEditor.StartAdding | src/components/StatusStepsList.tsx:203-205 | the add form opens only while neither form is open |
| StatusStepsList.StepEditor.HandleEdit | src/components/StatusStepsList.tsx:103-106 | the edit form opens for that step and the add form closes |
| StatusStepsList.StepEditor.HandleCancel | src/components/StatusStepsList.tsx:108-111 | both forms close |
| StatusStepsList.StepEditor.HandleSubmit | src/components/StatusStepsList.tsx:90-101 | while editing, the data goes to update and never to add; otherwise a step is added at position `steps.length`; the forms never open together |
| Dashboard.MoveCardResult | src/pages/Dashboard.tsx:77-92 | nothing for an out-of-range target; otherwise exactly the two cards swap and every card, of any type, gets its index as position |
| Dashboard.HandleMoveStatus | src/pages/Dashboard.tsx:75-94 | the array-based handler passes on what `MoveCardResult` describes |
| Dashboard.MoveCardPermutation | src/pages/Dashboard.tsx:85-92 | a card move keeps the multiset of ids |
| Dashboard.InitialCardMoves | src/pages/Dashboard.tsx:85-92 | the initial status moves like any other card |
| Dashboard.MoveCardBack | src/pages/Dashboard.tsx:85-92 | moving a card back restores the list, renumbered from 0 |
| Dashboard.JoinSite | src/pages/Dashboard.tsx:122 | the joined site is one of the sites with the project's site id, absent when none has it |
| Dashboard.RecentProjects | src/pages/Dashboard.tsx:120-123 | the first five projects (or fewer), each joined with its site |
| Dashboard.RecentSites | src/pages/Dashboard.tsx:126 | the first five sites (or fewer) |
| Dashboard.ProjectHits | src/pages/Dashboard.tsx:40-52 | one project entry for each matching recent project and for no other |
| Dashboard.SiteHits | src/pages/Dashboard.tsx:54-64 | one site entry for each matching site and for no other |
| Dashboard.SearchResults | src/pages/Dashboard.tsx:36-67 | nothing for an empty query; otherwise the project hits followed by the site hits |
| Dashboard.SearchResultsGrouped | src/pages/Dashboard.tsx:66 | no site entry comes before a project entry |
| Dashboard.SearchNarrows | src/pages/Dashboard.tsx:36-67 | every entry for a longer query is also an entry for its prefix |
| StatusReorder.SettingsReorderStoresShifted | src/lib/api/projectStatuses.ts:135-145 | as written: after a settings move every stored position is one less than the position the page shows |
| StatusReorder.DashboardReorderStoresShifted | src/lib/api/projectStatuses.ts:135-145 | as written: after a dashboard move every stored position is one more than the one the dashboard computed |
| StatusReorder.SettingsReorderExample | src/lib/api/projectStatuses.ts:137 | a two-status move stores the first regular status at 1 while the page shows 2 |
| StatusReorder.SettingsReorderKeepingPositions | src/components/StatusList.tsx:29-34 | corrected: the stored positions are 2, 3, ... in list order, strictly increasing |
| StatusReorder.DashboardReorderKeepingPositions | src/pages/Dashboard.tsx:89-94 | corrected: the stored positions are those the dashboard computed, 0, 1, ... |
| StatusReorder.KeptRowsMapBack | src/lib/api/projectStatuses.ts:4-15 | a kept row maps back to the status's id, code, type and position |
| Wizard.OrEmpty | src/components/projects/ProjectFormWizard.tsx:37-42 | a missing value becomes `''`, a present one is kept |
| Wizard.NonEmpty | src/components/projects/ProjectFormWizard.tsx:114-117 | the empty string becomes absent, any other text is kept |
| Wizard.DatePart | src/components/projects/ProjectFormWizard.tsx:43-44 | the text before the first `T`: a prefix without `T`, followed by `T` unless it is the whole text |
| Wizard.InitialForm | src/components/projects/ProjectFormWizard.tsx:36-45 | missing fields start empty; start date is the given date part or today's; end date the given date part or empty |
| Wizard.SubmissionOf | src/components/projects/ProjectFormWizard.tsx:110-118 | name, site and start date are copied; each optional field is absent exactly when it is empty; there is no end date |
| Wizard.FilteredSites | src/components/projects/ProjectFormWizard.tsx:54-61 | a permutation of the matching sites sorted by site code; every site for an empty query |
| Wizard.FilteredSitesFacts | src/components/projects/ProjectFormWizard.tsx:54-61 | the sorted filter is ordered, holds only matching sites, and for an empty query holds every site |
| Wizard.StepComplete | src/components/projects/ProjectFormWizard.tsx:122-133 | no step outside 0..2 is ever complete |
| Wizard.ProjectFormWizard.constructor | src/components/projects/ProjectFormWizard.tsx:35-47 | step 0, the initial form and an empty search |
| Wizard.ProjectFormWizard.HandleNext | src/components/projects/ProjectFormWizard.tsx:90-97 | advances by one only below the last step and when the current step is complete; the step stays in 0..2 |
| Wizard.ProjectFormWizard.HandlePrevious | src/components/projects/ProjectFormWizard.tsx:99-103 | steps back unless at step 0 |
| Wizard.ProjectFormWizard.SetName | src/components/projects/ProjectFormWizard.tsx:150 | only the name changes, on step 0 |
| Wizard.ProjectFormWizard.SetDescription | src/components/projects/ProjectFormWizard.tsx:163 | only the description changes, on step 0 |
| Wizard.ProjectFormWizard.SetSearchQuery | src/components/projects/ProjectFormWizard.tsx:183 | only the search text changes, on step 1 |
| Wizard.ProjectFormWizard.SetSiteId | src/components/projects/ProjectFormWizard.tsx:191-196 | only the site changes, on step 1 |
| Wizard.ProjectFormWizard.SetMicrowaveBand | src/components/projects/ProjectFormWizard.tsx:219 | only the band changes, on step 1 |
| Wizard.ProjectFormWizard.SetAddress | src/components/projects/ProjectFormWizard.tsx:256-257 | only the address changes, on step 1 |
| Wizard.ProjectFormWizard.SelectAddress | src/components/projects/ProjectFormWizard.tsx:81-88 | address and coordinates come from the suggestion, `''` for a missing one |
| Wizard.ProjectFormWizard.SetGpsCoordinates | src/components/projects/ProjectFormWizard.tsx:293 | only the coordinates change, on step 1 |
| Wizard.ProjectFormWizard.UseSiteCoordinates | src/components/projects/ProjectFormWizard.tsx:295-302 | the coordinates of the selected site are copied when it has some; otherwise nothing changes |
| Wizard.ProjectFormWizard.SetStartDate | src/components/projects/ProjectFormWizard.tsx:327 | only the start date changes, on step 2 |
| Wizard.ProjectFormWizard.SetEndDate | src/components/projects/ProjectFormWizard.tsx:340 | only the end date changes, on step 2 |
| Wizard.ProjectFormWizard.HandleSubmit | src/components/projects/ProjectFormWizard.tsx:105-120 | no payload exactly when the current step is incomplete; from the last step the payload has a name, a site and a start date |
| Statistics.StatisticsOf | src/lib/api/statistics.ts:22-26 | one entry per listed code and no other, each the number of projects with exactly that status |
| Statistics.GetProjectStatistics | src/lib/api/statistics.ts:9-29 | an error exactly when the read fails; otherwise the loop builds the dictionary `StatisticsOf` describes |
| Statistics.UnknownStatusUncounted | src/lib/api/statistics.ts:24-26 | removing a project with an unlisted status changes no count |
| Statistics.SumOfDistinctCounts | src/lib/api/statistics.ts:24-26 | over distinct codes the counts add up to the projects with a listed status, at most all projects, and to all exactly when no status is unknown |
| Seqs.Find | src/pages/Dashboard.tsx:122 | `find`: absent when nothing satisfies the test, otherwise the first element that does |
| Seqs.Take | src/pages/Dashboard.tsx:120 | `slice(0, n)`: the first `n` elements, or all when there are fewer |
| Seqs.Lower | src/pages/Dashboard.tsx:37 | lower-casing maps each character on its own and keeps the length |
| Seqs.SortBySorted | src/lib/api/projectStatuses.ts:46 | the sort's result is ordered by the comparator and, by its contract, a permutation |

## Left out

- `calculateDistance`, `formatGpsCoordinate`, `formatGpsCoordinates`, `formatDistance`
  (src/lib/utils/coordinates.ts:64-93, 112-117): floating-point trigonometry
  and `toFixed` rounding.
- `createMapBounds` (src/lib/utils/coordinates.ts:95-110) and
  `src/lib/utils/map.ts`: Leaflet objects and map configuration.
- Floating point: `Math.round(c / n * 100)` is computed exactly as
  round-half-up, and `parseFloat` of the seconds is exact thousandths. The
  rare float rounding differences are not modelled.
- Supabase queries, writes and realtime subscriptions: each one is a
  parameter (a success flag, an `Option` of the data read). Races between
  concurrent reloads are not modelled.
- `new Date()` and the ISO date strings: "now" is a string parameter.
  `startOfMonth`/`endOfMonth` in statistics.ts are computed but unused, and
  so have no counterpart.
- `localeCompare` is the lexicographic order on character codes, and
  `toLowerCase` only lowers ASCII letters.
- `updateProjectStatus` (src/lib/api/projectStatuses.ts:89-119) is not
  modelled beyond the mapping of its result. The settings page takes the
  returned status as a parameter.
- `onStepsChange` and the loading flags of the checklist are not modelled.
  Neither are the statuses the checklist loads at src/components/ProjectChecklist.tsx:34-47.
- The geocoding lookup started by the wizard's address input
  (src/lib/utils/geocoding.ts) is a network call and is not modelled.
- The dashboard's refresh after a move (src/pages/Dashboard.tsx:96-98) is
  not modelled. The search sees only the five recent projects, as the code
  does.
- Wizard.ProjectFormWizard.SetName: this and the other input setters require
  the step on which their input is rendered, since the page offers no other
  way to set that field.
- The JSX rendering, routing and presentational components are not
  modelled.

## Findings

| source | as written | input that shows it | evidently intended | confidence | as-written member | corrected member |
|---|---|---|---|---|---|---|
| src/lib/api/projectStatuses.ts:135-145 | `reorderProjectStatuses` stores `index + 1` as the position of each status. It ignores the positions `moveStatus` (2, 3, ...) and `handleMoveStatus` (0, 1, ...) computed. | Two regular statuses moved in the settings page: the page shows the first at position 2 and the database stores 1, the position the initial status holds. | Store the positions the caller computed. | medium, not executed | StatusReorder.SettingsReorderExample | StatusReorder.SettingsReorderKeepingPositions |
