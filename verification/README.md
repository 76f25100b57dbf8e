# Loomify dashboard core, modelled in Dafny

Loomify is a Next.js dashboard over a store of analysed Loom recordings. Each recording
("video") carries an AI analysis: a list of developers, each with an ordered list of tasks.
This project models the logic of that dashboard as pure Dafny functions, methods and lemmas:

- `LoomContext` (`loom_context.dfy`) models the write path. It applies completion and text
  updates to a copy of a stored video and patches the cached list and the single-video cache
  with the row the store returns. It also models the `taskIsSaving` flag and the message a
  failed load shows.
- `TaskModal` (`task_modal.dfy`) models the task editor. It keeps per-task state under
  `"<developer>-<index>"` keys, seeded from the stored row and edited locally. It detects
  unsaved changes against the seed and turns the changed keys into update lists.
- `DevelopersPage` models the per-developer roll-up, sorted by name and searchable.
  `ProjectsPage` models grouping by case-folded project label, the project search and the
  per-project statistics. `SummariesPage` models the summary search.
- `LoomVideoCard` and `VideoStats` model the card and the statistics panel of one video.
  `Display` holds their shared percentage and duration formats.
- `SummaryModal` models the meeting-summary reader. It splits a summary into lines, drops
  redundant marker lines and classifies each line while carrying the current section.
- `SubmitPage` models the submit form: the URL check, how the client picks an error message,
  and what the page does when the submission settles.
- `LoomProxy` models the `POST` handler of the loom proxy route.

Shared modules hold the JavaScript semantics the views rely on:

- `Text`: `trim`, `toLowerCase`, `includes`, `indexOf`, `split`, `parseInt` and `String(n)`.
- `Seqs`: `filter` and `Set` kept in insertion order.
- `Records`: `Map` and plain objects as insertion-ordered entry lists.
- `Sorting`: `sort` with a comparator.
- `Loom`: the stored record.

The store, the HTTP calls, `JSON.parse` and the platform's `Response.json` are not modelled as
code. What they answer is an input: a `StoreReply`, an `Upstream` outcome, a `PostOutcome`, a
`parse` function, or a `statusError` function. `statusError` gives the message `Response.json`
throws for a status it refuses. Which statuses it refuses is modelled (`LoomProxy.Constructible`):
those outside 200..599, and 204, 205 and 304, because the body is not null.

## Model

| member | source | states |
|---|---|---|
| `LoomContext.FindDeveloper` | src/context/LoomContext.tsx:87-89 | The index found is the first developer carrying the name; none is found exactly when no developer carries it. |
| `LoomContext.Target` | src/context/LoomContext.tsx:91-95 | An update reaches a task exactly when its developer is found and its index is an existing position in that developer's task list. |
| `LoomContext.ApplyUpdate` | src/context/LoomContext.tsx:86-99 | One update keeps every developer, name and task-list length. An update that reaches no task leaves the list unchanged. |
| `LoomContext.ApplyUpdates` | src/context/LoomContext.tsx:102-114 | A whole update list keeps the developers, their names and their task-list lengths. |
| `LoomContext.UpdateVideo` | src/context/LoomContext.tsx:80-119 | Only the analysis of the copy changes. The project and the shape of the developer list are kept. |
| `LoomContext.ApplyChangesFields` | src/context/LoomContext.tsx:96-97 | A run of changes to one task sets `completed` to the last completion value and `text` to the last text. `Completed` and `timestamp` are left alone. |
| `LoomContext.ApplyUpdatesSpec` | src/context/LoomContext.tsx:86-114 | Each task after the update loop is its original with exactly the changes aimed at it applied, in list order. |
| `LoomContext.UpdateVideoSpec` | src/context/LoomContext.tsx:83-114 | Per task, the completion updates run before the text updates. The last write of each field wins, and the upper-case `Completed` flag is never written. |
| `LoomContext.ShadowedDeveloperUnchanged` | src/context/LoomContext.tsx:87-89 | A developer whose name also belongs to an earlier developer is never updated, since `findIndex` stops at the first. |
| `LoomContext.UnreachableUpdateSkipped` | src/context/LoomContext.tsx:91-95 | An update naming an unknown developer, a missing index or a position outside the list leaves the video unchanged. |
| `LoomContext.UpdateLoomVideo` | src/context/LoomContext.tsx:66-130 | A failed read rejects with "Failed to fetch video: …" and writes nothing. Otherwise the updated analysis is written; a failed write rejects with "Failed to update video: …", and a successful one resolves with the stored row. |
| `LoomContext.PatchCache` | src/context/LoomContext.tsx:159-167 | An absent (`undefined`) cache becomes the one returned row; a cached empty list stays empty. A cached list keeps its length, and every entry with the returned id is replaced by the returned row. |
| `LoomContext.PatchCacheProperties` | src/context/LoomContext.tsx:159-167 | Patching twice is patching once, and a list without that id is left as it was. |
| `LoomContext.UpdateTaskCompletionStatus` | src/context/LoomContext.tsx:189-214 | The call answers true exactly when the mutation resolved. The flag is raised first and lowered last either way. |
| `LoomContext.RefreshData` | src/context/LoomContext.tsx:178-186 | The flag is raised first; it is lowered last exactly when the refetch fails. |
| `LoomContext.RefreshLeavesSavingSet` | src/context/LoomContext.tsx:178-186 | After a successful refresh the flag stays set, whatever it was; after a failed one it is clear. |
| `LoomContext.RefreshDataCorrected` | src/context/LoomContext.tsx:178-186 | The corrected refresh raises the flag first and lowers it last, whatever the refetch does. |
| `LoomContext.RefreshCorrectedClearsFlag` | src/context/LoomContext.tsx:178-186 | After the corrected refresh the flag is clear, just as after a save. |
| `LoomContext.SaveTasks` | src/context/LoomContext.tsx:155-214 | A successful save patches the list cache and sets the single-video cache entry for the row's id, leaving other entries alone. A failed save leaves both caches. The flag ends clear. |
| `LoomContext.LoadErrorMessage` | src/context/LoomContext.tsx:148-152 | No error gives no message. An `Error` gives its own message, and anything else thrown gives "An error occurred". |
| `TaskModal.DecodeKey` | src/components/TaskModal.tsx:171-174 | The decoded name is the part of the key before its first dash and holds no dash. A key without a dash decodes to itself with no index. |
| `TaskModal.KeyRoundTrip` | src/components/TaskModal.tsx:168-177 | A key built from a name without a dash decodes back to that name and index. |
| `TaskModal.DashedNameNeverDecodes` | src/components/TaskModal.tsx:171-172 | A name holding a dash never decodes back to itself, only to a proper prefix. |
| `TaskModal.DashedNameMisroutes` | src/components/TaskModal.tsx:171-174 | The key of task 2 of developer "X-1" decodes to task 1 of developer "X". |
| `TaskModal.DecodeKeyAtLastDash` | src/components/TaskModal.tsx:171-172 | Splitting at the last dash yields a name that is the key's prefix just before that dash. |
| `TaskModal.KeyRoundTripAtLastDash` | src/components/TaskModal.tsx:168-177 | Splitting at the last dash decodes every key back to its name and index, with or without dashes in the name. |
| `TaskModal.Seed` | src/components/TaskModal.tsx:56-78 | A video without developers leaves the editor alone. Otherwise the first developer becomes active, current and initial states agree, and each key holds the last task seeded under it. |
| `TaskModal.SeededSession` | src/components/TaskModal.tsx:62-73 | With distinct dash-free names, every task's key holds its stored `Completed` flag and text. The editor counts every task, and the done ones by `Completed`. |
| `TaskModal.SeedEntriesKeys` | src/components/TaskModal.tsx:65-72 | With distinct dash-free names, the seeded keys never collide, and each decodes to a developer of the video. |
| `TaskModal.ChangedKeys` | src/components/TaskModal.tsx:84-90 | A key is listed exactly when the current state holds it with a value other than the initial one, in the current state's key order. |
| `TaskModal.NoChangesAgainstItself` | src/components/TaskModal.tsx:199-203 | Once the saved state becomes the initial state, no change remains. |
| `TaskModal.UpdatesFor` | src/components/TaskModal.tsx:168-189 | One update per changed key, in order, carrying the key's decoded name and index and the key's current value. |
| `TaskModal.SaveChanges` | src/components/TaskModal.tsx:164-212 | Without changes nothing is sent. Otherwise both update lists are sent. On success the current state becomes the initial one and a success notice shows; on failure the editor is kept and an error notice shows. |
| `TaskModal.Toggle` | src/components/TaskModal.tsx:122-128 | Toggling writes the negation of the key's value, so a key never set becomes true. Every other key and field is kept. |
| `TaskModal.ToggleThenSave` | src/components/TaskModal.tsx:122-189 | Toggling one seeded task of a dash-free developer makes the editor dirty. Saving then sends exactly one completion update, with the negated value, and no text update. |
| `TaskModal.ToggleTwice` | src/components/TaskModal.tsx:122-128 | Toggling a held key twice restores the editor exactly. |
| `TaskModal.StartEditingTask` | src/components/TaskModal.tsx:131-141 | Editing stores the typed text under the task's key and changes nothing else. |
| `TaskModal.Select` | src/components/TaskModal.tsx:645-654 | Opening the inline editor records the task and its stored text as the selection and changes nothing else. |
| `TaskModal.SaveTaskTextEdit` | src/components/TaskModal.tsx:144-156 | With nothing selected, or when the key already holds the selection's text, nothing happens. Otherwise the key gets the selection's text back and the selection closes. |
| `TaskModal.CancelTaskTextEdit` | src/components/TaskModal.tsx:159-161 | Cancelling closes the selection and keeps everything else. |
| `TaskModal.EditThenSaveDiscardsEdit` | src/components/TaskModal.tsx:144-156 | Typing into the inline editor and pressing save leaves the key holding the stored text, not the typed one. |
| `TaskModal.SaveTaskTextEditKeepingEdit` | src/components/TaskModal.tsx:144-156 | The intended save closes the selection and keeps the text state as typed. |
| `TaskModal.EditThenSaveKeepsEdit` | src/components/TaskModal.tsx:601-619 | With the intended save, a typed text that differs from the stored one stays and leaves the editor dirty. |
| `TaskModal.CompletionStats` | src/components/TaskModal.tsx:215-223 | The total is the number of keys. The done count is the number of distinct keys holding `true`, so at most the total. The rate is the rounded percentage, at most 100. |
| `TaskModal.ToggleCount` | src/components/TaskModal.tsx:122-128 | Toggling a task moves the done count by exactly one: down when the task was done, up otherwise. The task count grows only when the key was not yet held. |
| `TaskModal.FormatDuration` | src/components/TaskModal.tsx:110-119 | A text duration is shown as is. A number above 1000 is read as milliseconds, and the clock shown reads back as the minutes and seconds of the resulting seconds. |
| `TaskModal.MillisecondHeuristicBoundary` | src/components/TaskModal.tsx:114-115 | 1000 seconds shows as 16:40, while 1001 seconds is taken as milliseconds and shows as 0:01. |
| `TaskModal.EmbedUrl` | src/components/TaskModal.tsx:226 | The link is unchanged exactly when it lacks "share/". Otherwise only the first "share/" becomes "embed/" and every other character stays. |
| `DevelopersPage.AppearancesIn` | src/app/developers/page.tsx:26-29 | One appearance per developer entry of the video, in order. |
| `DevelopersPage.Tagged` | src/app/developers/page.tsx:47-54 | Each task of an entry is tagged with its video id, project and position. |
| `DevelopersPage.Collect` | src/app/developers/page.tsx:24-65 | The map has one entry per key. |
| `DevelopersPage.CollectSpec` | src/app/developers/page.tsx:24-65 | An unnamed developer gets no entry, and a name gets one exactly when it appears. The entry holds all its tasks from every video in order, their done count, and each non-empty project of those tasks once. |
| `DevelopersPage.AddAppearanceDescribes` | src/app/developers/page.tsx:43-62 | Visiting one more developer entry keeps that name's entry describing all its appearances so far. |
| `DevelopersPage.CollectConservesTasks` | src/app/developers/page.tsx:46-54 | Every task of a named developer lands in exactly one entry, none lost and none doubled. |
| `DevelopersPage.ToRow` | src/app/developers/page.tsx:69-75 | The completion rate is at most 100 whenever the done count does not exceed the task count. |
| `DevelopersPage.Developers` | src/app/developers/page.tsx:21-78 | While loading there are no rows. Otherwise the rows are the map's entries, reordered by name. |
| `DevelopersPage.DevelopersSpec` | src/app/developers/page.tsx:26-77 | A row exists for a name exactly when it is non-empty and appears. The row carries that name's tasks, done count, rounded rate and distinct projects. |
| `DevelopersPage.RowDescribed` | src/app/developers/page.tsx:68-77 | Every row belongs to a named developer that appears, and carries that developer's tasks, done count, rate and projects. |
| `DevelopersPage.DevelopersDistinct` | src/app/developers/page.tsx:34-41 | No two rows share a developer name. |
| `DevelopersPage.EntryNamedByKey` | src/app/developers/page.tsx:35-36 | Every entry of the map carries its own key as its name. |
| `DevelopersPage.FilterDevelopers` | src/app/developers/page.tsx:81-92 | A blank query lists every row. Otherwise exactly the rows whose lower-cased name or a lower-cased project contains the lower-cased query are kept, in order. |
| `Sorting.Sort` | src/app/developers/page.tsx:77 | The result is ordered by the comparator and is a permutation of the input. |
| `Sorting.SortStable` | src/app/developers/page.tsx:77 | The sort is stable: elements the comparator ties, such as rows whose names compare equal, come out in the order they went in. |
| `ProjectsPage.Group` | src/app/projects/page.tsx:27-56 | The project map has one entry per key. |
| `ProjectsPage.GroupSpec` | src/app/projects/page.tsx:29-56 | A group exists exactly for each lower-cased label seen. It is named by the label's first spelling, holds the videos under it that have developers, and lists their recording types once each. |
| `ProjectsPage.GroupKeys` | src/app/projects/page.tsx:35-41 | Groups come in the order their labels first appeared, one per label. |
| `ProjectsPage.FirstLabelSpec` | src/app/projects/page.tsx:33-37 | A first spelling exists exactly for the labels seen, and it lower-cases to the label. |
| `ProjectsPage.ProjectsSpec` | src/app/projects/page.tsx:21-63 | The listed projects correspond one to one, in order, with the distinct labels, each described as its group. |
| `ProjectsPage.ProjectWithoutDevelopersListed` | src/app/projects/page.tsx:43-49 | A project whose only video has no developers is still listed, with no videos and no recording types. |
| `ProjectsPage.FilterProjects` | src/app/projects/page.tsx:66-73 | The empty query lists every project. Otherwise exactly the projects whose lower-cased name contains the lower-cased query are kept, in order. |
| `ProjectsPage.SpaceQueryHidesProjects` | src/app/projects/page.tsx:67-72 | A query of one space is not treated as empty and hides a project named without spaces. |
| `ProjectsPage.Stats` | src/app/projects/page.tsx:76-119 | The video count, distinct developer count, task count and count done by `Completed` are those of the group's videos. The rate is the rounded percentage, 0 without tasks and at most 100. |
| `ProjectsPage.TypeCounts` | src/app/projects/page.tsx:81-95 | The counters form an object with one entry per key. |
| `ProjectsPage.TypeCountsGet` | src/app/projects/page.tsx:91-95 | A recording type has a counter exactly when it is non-empty and occurs, and the counter is its number of videos. |
| `ProjectsPage.TypeCountsKeys` | src/app/projects/page.tsx:92-94 | The counters are listed in order of each type's first appearance. |
| `ProjectsPage.TypeCountsSum` | src/app/projects/page.tsx:81-95 | The counters add up to the number of videos with a recording type. |
| `ProjectsPage.CountIn` | src/app/projects/page.tsx:93-94 | One count raises the counters' total by exactly one. |
| `ProjectsPage.DoneWithinTasks` | src/app/projects/page.tsx:104-107 | The done count never exceeds the task count. |
| `LoomVideoCard.Card` | src/components/LoomVideoCard.tsx:15-43 | The counts are all tasks and those with `Completed` set, and the rate is their rounded percentage. The rate is 0 without tasks, 100 when all are done, and at most 100. |
| `LoomVideoCard.FormatDuration` | src/components/LoomVideoCard.tsx:46-62 | A text that does not parse as a number is shown as is. A text that parses as a non-negative number of seconds shows as the clock of its whole seconds. |
| `LoomVideoCard.WholeSecondsTextAgrees` | src/components/LoomVideoCard.tsx:48-61 | The text of a whole number of seconds shows the same clock as the number itself. |
| `LoomVideoCard.FloorFacts` | src/components/LoomVideoCard.tsx:57-58 | For a non-negative duration, the floored minutes and the floored remainder are the whole-second minutes and seconds. |
| `LoomVideoCard.Initials` | src/components/LoomVideoCard.tsx:237 | The first two characters of the name, fewer for a shorter name, each upper-cased. |
| `LoomVideoCard.Avatars` | src/components/LoomVideoCard.tsx:225-238 | One avatar for each of the first three developers, in order, showing their initials. |
| `LoomVideoCard.Overflow` | src/components/LoomVideoCard.tsx:241-251 | A `+n` badge appears exactly when there are more than three developers. |
| `LoomVideoCard.DeveloperLabel` | src/components/LoomVideoCard.tsx:255-259 | The singular "developer" is used exactly for a count of one. |
| `LoomVideoCard.EveryDeveloperShown` | src/components/LoomVideoCard.tsx:225-251 | The avatars and the badge together account for every developer. |
| `Loom.DoneTotalBound` | src/components/LoomVideoCard.tsx:28-40 | No count of done tasks exceeds the number of tasks. |
| `Display.Percentage` | src/components/LoomVideoCard.tsx:42-43 | The rate is 0 without tasks. Otherwise it is the nearest whole percentage in exact arithmetic, with halves rounded up, and at most 100 when no more are done than exist. |
| `Display.PercentageEnds` | src/components/VideoStats.tsx:22-23 | Nothing done shows 0, everything done shows 100, and three of five shows 60. |
| `Display.PadTwo` | src/components/VideoStats.tsx:31-33 | A string of two or more characters is kept. A shorter one is padded on the left with zeros to two characters. |
| `Display.ClockRoundTrip` | src/components/VideoStats.tsx:29-34 | The `m:ss` clock of a number of seconds reads back as its minutes and seconds. |
| `VideoStats.Stats` | src/components/VideoStats.tsx:8-34 | No video shows no panel. The counts are all tasks and those with the lower-case `completed` set, with their rounded rate, 0 without tasks. Developers are counted by distinct name, and the duration is shown as text or as a clock. |
| `VideoStats.FormatDuration` | src/components/VideoStats.tsx:29-34 | A text duration is shown as is, and a number of seconds as a clock that reads back as its minutes and seconds. |
| `VideoStats.PanelCountsSavedCompletions` | src/components/VideoStats.tsx:16-20 | After a save, the panel counts a task as done exactly when the last completion update aimed at it was true, or, with none, when it already was. |
| `VideoStats.PanelAndCardDisagree` | src/components/VideoStats.tsx:16-20 | The panel and the card can count the same video differently: a task marked `Completed` by the analysis but never saved is done on the card and not on the panel. |
| `SummariesPage.FilterSummaries` | src/app/summaries/page.tsx:59-72 | Nothing is listed while loading, and a blank term lists everything. Otherwise exactly the summaries whose title, file name or content contains the term are kept, in order, all compared in lower case. |
| `SummariesPage.SpacedTermNeedsSpacedField` | src/app/summaries/page.tsx:63-71 | The term is not trimmed, so a term holding a space only matches a summary with a space in a searched field. |
| `SummaryModal.Lines` | src/components/SummaryModal.tsx:370-372 | Every line kept is non-blank and holds no line break, and the lines come in text order. |
| `SummaryModal.Dedup` | src/components/SummaryModal.tsx:376-393 | The kept lines are a subsequence of the input. Which lines go is stated by `DedupCounts`. |
| `SummaryModal.DedupCounts` | src/components/SummaryModal.tsx:379-390 | A line is dropped exactly when it is a stand-alone marker whose next line contains it. Every line, marker or not, appears once for each position that holds it and is not redundant. |
| `SummaryModal.DedupKeepsLastMarker` | src/components/SummaryModal.tsx:383-387 | A stand-alone marker on the last line has no next line, so it is kept. |
| `SummaryModal.DedupKeepsOrdinaryLines` | src/components/SummaryModal.tsx:379-390 | Every line that is not a stand-alone marker is kept as often as it occurs. |
| `SummaryModal.CleanLine` | src/components/SummaryModal.tsx:399-402 | No two asterisks in a row remain, and the line does not grow. A line not starting with an asterisk keeps its first character. |
| `SummaryModal.CleanLineKeepsNonStars` | src/components/SummaryModal.tsx:401 | Every character other than an asterisk is kept, in order. |
| `SummaryModal.CleanLineRemovesPairs` | src/components/SummaryModal.tsx:401 | Asterisks are removed in pairs. |
| `SummaryModal.CleanLinePlain` | src/components/SummaryModal.tsx:401 | A line without a double asterisk comes back unchanged. |
| `SummaryModal.CleanLineIdempotent` | src/components/SummaryModal.tsx:399-402 | Cleaning twice is cleaning once. |
| `SummaryModal.TaskHead` | src/components/SummaryModal.tsx:620-622 | A match carries a non-empty digit string and a description without line breaks. |
| `SummaryModal.TaskHeadDashed` | src/components/SummaryModal.tsx:620-622 | `Task <n> - <description>` matches with that number and that description. |
| `SummaryModal.TaskHeadBracketed` | src/components/SummaryModal.tsx:620-622 | `[Task <n>] <description>` matches with that number and that description. |
| `SummaryModal.TaskHeadUmlautDash` | src/components/SummaryModal.tsx:621 | Under the case-insensitive flag, "ä" counts as a dash, so "Task 1 ä fix" has the description "fix". |
| `SummaryModal.InfoOfPlainDescription` | src/components/SummaryModal.tsx:630-632 | A description without "due:" or "assigned to:" is taken whole, with no due date and no assignee. |
| `SummaryModal.FirstTaskRefSpec` | src/components/SummaryModal.tsx:665 | The search finds an embedded task reference with none before it, or finds none when there is none. |
| `SummaryModal.CutAtTaskRef` | src/components/SummaryModal.tsx:665-669 | A description without an embedded task reference is kept whole. |
| `SummaryModal.CutAtTaskRefClears` | src/components/SummaryModal.tsx:665-669 | Cutting at the first embedded reference leaves no reference in the description. |
| `SummaryModal.FirstDashTailSpec` | src/components/SummaryModal.tsx:668 | The search for `\s*[-–]\s*$` returns the leftmost position where it matches, or reports that it matches nowhere. |
| `SummaryModal.DropTrailingDash` | src/components/SummaryModal.tsx:668 | The text is unchanged exactly when the dash-tail pattern matches nowhere. Otherwise the result is the text up to the leftmost match. |
| `SummaryModal.HeaderSection` | src/components/SummaryModal.tsx:481-540 | A header either opens a real section or opens none. |
| `SummaryModal.ActionItem` | src/components/SummaryModal.tsx:610-720 | A line in the action-items section renders as a task item or a plain task. |
| `SummaryModal.BodyElement` | src/components/SummaryModal.tsx:567-790 | A body line never renders as a header or an end note. |
| `SummaryModal.ClassifyNext` | src/components/SummaryModal.tsx:480-553 | A line keeps the current section unless it opens one, and then the section is the one it opens. |
| `SummaryModal.ClassifyNoSubheader` | src/components/SummaryModal.tsx:555-565 | The sub-header branch is unreachable: a line starting `###` has already matched `##`. |
| `SummaryModal.ClassifyEnd` | src/components/SummaryModal.tsx:408-421 | A line mentioning the end of the summary is an end note in every section. |
| `SummaryModal.ClassifyOpens` | src/components/SummaryModal.tsx:480-541 | A line that opens a section renders as that section's header with its cleaned title. |
| `SummaryModal.SectionBeforeIsLastOpener` | src/components/SummaryModal.tsx:480-541 | The section in force at a line is the one opened by the nearest opener above it. |
| `SummaryModal.SectionBeforeWithoutOpener` | src/components/SummaryModal.tsx:396 | Above the first opener, the starting section (none) is in force. |
| `SummaryModal.CarriedSectionIsSectionBefore` | src/components/SummaryModal.tsx:406-553 | The section the render loop carries equals the section in force by the nearest-opener rule. |
| `SummaryModal.RenderLines` | src/components/SummaryModal.tsx:406-794 | One element per line, each the line classified under the section in force. End lines render as end notes, openers as their headers, and none as a sub-header. |
| `SummaryModal.Render` | src/components/SummaryModal.tsx:370-393 | The reader renders one element per kept line. Each element is that line classified under the section of the nearest opener above it. None is a sub-header. |
| `SummaryModal.DownloadName` | src/components/SummaryModal.tsx:68-76 | The file name always ends in `_summary.txt`. |
| `SummaryModal.DownloadNameSpec` | src/components/SummaryModal.tsx:68-76 | The file name holds no white space. Its stem is the title (or, with no title, the file name) with each maximal run of white space turned into exactly one `_` and every other character kept in order. A base without white space is kept verbatim. |
| `Text.ReplaceSpaceRunsIsRef` | src/components/SummaryModal.tsx:69-70 | `replace(/\s+/g, rep)` equals the left-to-right reading that copies every character other than white space and emits one `rep` at the start of each white-space run. |
| `SubmitPage.InitialForm` | src/app/submit/page.tsx:84-86 | The form opens with an empty URL and the recording type "meeting". |
| `SubmitPage.HandleSubmitSpec` | src/app/submit/page.tsx:148-164 | A blank URL asks for a URL, and a URL without the share marker asks for a valid one. Only a URL with the marker is submitted, with the chosen recording type. |
| `SubmitPage.FreshFormSubmit` | src/app/submit/page.tsx:84-164 | The untouched form asks for a URL, and a share URL typed into it is submitted as a meeting. |
| `SubmitPage.CaughtMessagePrecedence` | src/app/submit/page.tsx:51-77 | For an HTTP error the message is the first non-empty of the body's `error`, the body's `message` and the error's message, or "Unknown error occurred". Any other `Error` gives its own message. |
| `SubmitPage.SubmitLoomUrl` | src/app/submit/page.tsx:14-79 | Data is returned only from a 2xx answer without an `error`. Every failure message starts with "API Error: ". |
| `SubmitPage.ProxyErrorsReachThePage` | src/app/submit/page.tsx:25-77 | Every error the proxy answers with reaches the page as "API Error: " followed by the proxy's own message. |
| `SubmitPage.SettleSpec` | src/app/submit/page.tsx:105-145 | A returned submission clears the URL. "processing" shows an information notice and any other status a success notice with a redirect. A failure keeps the form and shows the error. |
| `LoomProxy.Validate` | src/app/api/loom-proxy/route.ts:14-30 | The request goes upstream exactly for a non-empty string `loom_url`, carrying only that URL. Every other outcome is an error answer with status 400 or 500. |
| `LoomProxy.ErrorAnswers` | src/app/api/loom-proxy/route.ts:24-132 | A falsy or non-string URL gets 400 with a fixed message. An unreadable body gets 500 naming the thrown message or "Unknown error". A thrown fetch gets 502 naming its message or "Unknown fetch error". |
| `LoomProxy.ForwardOnlyUrl` | src/app/api/loom-proxy/route.ts:52-54 | What is sent upstream is the URL alone, whatever recording type the client chose. |
| `LoomProxy.RejectedIgnoresUpstream` | src/app/api/loom-proxy/route.ts:24-30 | A rejected request is answered with an error, the same whatever the upstream would have done. |
| `LoomProxy.PassThroughExactly` | src/app/api/loom-proxy/route.ts:94-104 | A document is answered exactly when a valid request got a 2xx answer whose text parses, and then it is that parsed text with status 200. |
| `LoomProxy.SuccessStatusIffDocument` | src/app/api/loom-proxy/route.ts:73-111 | The proxy answers with a 2xx status exactly when it answers with a document. |
| `LoomProxy.UpstreamErrorRelayed` | src/app/api/loom-proxy/route.ts:73-91 | A non-2xx upstream status that `Response.json` accepts is relayed with "Error: <status> - <text>". A fixed detail replaces the text when it cannot be read. |
| `LoomProxy.RejectedStatusIs502` | src/app/api/loom-proxy/route.ts:87-122 | A non-2xx status that `Response.json` refuses, such as 304, makes the relay throw. The route then answers 502 "Fetch operation failed: " with the thrown message. |
| `LoomProxy.NotModifiedIsTheOnlyRejectedError` | src/app/api/loom-proxy/route.ts:87-90 | Among statuses 300..599, only 304 is refused. |
| `LoomProxy.AnswerStatusConstructible` | src/app/api/loom-proxy/route.ts:14-133 | Every answer of the route has a status that `Response.json` accepts. |
| `LoomProxy.UnparsableAnswerIs500` | src/app/api/loom-proxy/route.ts:105-111 | A 2xx answer that is not JSON, or whose text cannot be read, becomes a 500 with a fixed message. |
| `LoomProxy.ErrorTextNonEmpty` | src/app/api/loom-proxy/route.ts:24-132 | Every error answer carries a non-empty message. |

## Left out

- The store (Supabase) and the HTTP client (axios, `fetch`) are not modelled as code: their outcomes are inputs.
- React Query caching is not modelled beyond the two cache writes after a save: no staleness, refetch scheduling or invalidation.
- Rendering, animation, toasts and the markup of every view are left out.
- The summary modal's HTML-to-text conversion, print, clipboard and `Blob` download go through the DOM and are left out. Only the download file name is modelled.
- Date formatting with `Intl` is left out.
- `localeCompare` is an abstract total preorder passed in, so any locale's order is covered.
- `parseFloat` of a textual duration is an input to `LoomVideoCard.FormatDuration`, not code.
- Timers are left out: the redirect and refresh `setTimeout`s of the submit page and the 30-second abort of the proxy's fetch. The abort shows up only as one more thrown fetch.
- The race between the cache write after a save and a concurrent refetch is left out: each operation is one atomic step.
- Text.ToLower: maps ASCII letters only, while JavaScript's `toLowerCase` maps all of Unicode. The same holds for `Text.ToUpper`, `Text.LowerChar` and `Text.UpperChar`.
- ProjectsPage.FilterProjects: inherits the ASCII-only case mapping, so the query "ä" does not find a project named "Ärzte" as the page does.
- LoomVideoCard.Initials: inherits the ASCII-only upper-casing, so "ß" does not become "SS" as it does in JavaScript.
- Loom.Video: `llm_answer.developers` and a developer's `Tasks` cannot be absent; an absent list is modelled as an empty one. The readers that guard them treat both alike.
- ProjectsPage.Stats: counts a developer without `Tasks` as holding none, which is what the page's skip amounts to. Its skip of a video without developers is not modelled, so `ProjectsPage.TypeCounts` would count such a video's recording type where the page does not. That is the same for every group the page builds, since grouping admits only videos with developers.
- VideoStats.Stats: returns counts where the panel throws on a video without `developers` or a developer without `Tasks`. The same holds for `LoomContext.UpdateLoomVideo`.
- SubmitPage.Data: cannot hold a JSON `null` body or a non-string `error`. For a `null` body the page shows the `TypeError` of reading `status` from `null`, which the model does not produce.
- Display.Percentage: rounds the exact quotient, where the page rounds the double `c / t * 100`. The two differ when the double falls just below a half: 23 of 40 gives 57.49999999999999, so the page shows 57 and the model 58. The same happens for (46, 80), (69, 120), (92, 160), (29, 200), (57, 200), (113, 200) and (115, 200) among totals up to 200. `LoomVideoCard.Card`, `VideoStats.Stats`, `ProjectsPage.Stats`, `DevelopersPage.DevelopersSpec` and `TaskModal.CompletionStats` inherit this.
- ProjectsPage.TypeCounts: lists counters in order of first appearance. JavaScript lists an array-index-like recording type such as "2024" first.

## Findings

| source | as written | input that shows it | evidently intended | confidence | as-written member | corrected member |
|---|---|---|---|---|---|---|
| src/components/TaskModal.tsx:171-174 | The key `"<developer>-<index>"` is decoded with `split("-")`, so a developer name holding a dash is cut at its first dash. | Task 2 of developer "X-1" has the key "X-1-2", which decodes to developer "X", task 1. That update goes to another task or is dropped. | Split at the last dash, so that every key decodes back to its own developer and index. | not executed | `TaskModal.DashedNameMisroutes` | `TaskModal.KeyRoundTripAtLastDash` |
| src/context/LoomContext.tsx:178-186 | `refreshData` sets `taskIsSaving` to true and lowers it only in the `catch`. | Any refresh whose refetch succeeds leaves the saving flag set. | Lower the flag after the refetch in every case, as the save does in its `finally`. | not executed | `LoomContext.RefreshLeavesSavingSet` | `LoomContext.RefreshCorrectedClearsFlag` |
| src/components/TaskModal.tsx:144-156 | `saveTaskTextEdit` writes the selection's stored text back into the text state. | Select a task with text "a", type "b", press save: the task's text is "a" again and the edit is lost. | Keep the typed text and close the inline editor. | not executed | `TaskModal.EditThenSaveDiscardsEdit` | `TaskModal.EditThenSaveKeepsEdit` |
