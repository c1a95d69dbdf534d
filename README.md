# Sticky-notes core, modelled in Dafny

This project models the logic core of a desktop sticky-notes application.

- **The note collection store** (`NoteStore`, `note_store.dfy`). The store holds a sequence of note records and the id of the note opened last. It derives a display order: starred notes first, then unstarred ones, each group newest first. Its operations create, update, delete and star notes. A manual reorder writes the caller's order into synthetic `lastModified` stamps (`now - index`), so that the next display order reproduces it. There is also a z-order formula and a last-opened lookup that falls back to the head of the display order. The store is a class with `notes`, `lastOpenedNoteId` and `storage` fields. Every operation is tied to a pure function of the old state, and the properties are lemmas about those functions.
- **The dotted-key translation lookup** (`Translations`, `translations.dfy`). `t(key)` splits the key on `.` and walks the translation tree one segment per level. If any segment is missing or falsy, it answers the key itself. The module also models the choice of locale file and the fallback to English.
- **The release script** (`Release`, `release.dfy`). A hand-written recogniser stands for the anchored pattern `^\d+\.\d+\.\d+(-\w+)?$`. The tag name is `v<version>`. The four git commands are values, executed against a parameter saying whether each one succeeds.

`wrappers.dfy` holds the `Option` type shared by the three modules.

The clock (`Date.now()`), the id generator (`nanoid`) and the outcome of shell commands are parameters. The browser's key-value storage is the `storage` field of the store. Translation files are given as a map from file name to parsed tree.

Choices the model makes explicit, following the code:
- Ties in `lastModified` are not left open. The JavaScript sort is stable, and the model's sort is a stable insertion sort; `SortStable` proves that tied notes keep their collection order.
- After a reorder, the display order is the caller's list only when that list is already starred-first. In general it is the list's starred notes in the given order, followed by its unstarred notes in the given order (`ReorderThenDisplay`, `ReorderStarredFirst`).
- `getLastOpenedNote` reads the id held by the storage, not the in-memory `lastOpenedNoteId`.
- `saveToStorage` writes the last-opened id only when it is a non-empty string.

## Model

| member | source | states |
|---|---|---|
| NoteStore.Insert | src/renderer/store/noteStore.js:22-25 | one step of the sort: places a note in front of the first note that is not newer; its properties are InsertPermutes, InsertSorted and InsertStable |
| NoteStore.SortByTime | src/renderer/store/noteStore.js:22-25 | the sort of one group by the comparator, as an insertion sort; what it computes is fixed by SortOrders and SortStable |
| NoteStore.SortOrders | src/renderer/store/noteStore.js:22-25 | sorting a group by the comparator `b.lastModified - a.lastModified` gives a permutation of the group, newest first |
| NoteStore.SortKeepsSorted | src/renderer/store/noteStore.js:22-25 | a group that is already newest first is left exactly as it is |
| NoteStore.SortStable | src/renderer/store/noteStore.js:24-25 | the sort is stable: any set of notes with one common timestamp keeps its relative order |
| NoteStore.PartitionedPermutes | src/renderer/store/noteStore.js:18-19 | the starred and unstarred filters together hold exactly the notes of the collection |
| NoteStore.SortedNotesOrder | src/renderer/store/noteStore.js:16-29 | the display order is a permutation of the collection; no unstarred note precedes a starred one; each group is non-increasing in lastModified |
| NoteStore.SortedNotes | src/renderer/store/noteStore.js:16-29 | sortedNotes: the sorted starred group followed by the sorted unstarred group; its properties are SortedNotesOrder, DisplayHead and SortedNotesIdempotent |
| NoteStore.SortedNotesIsStarredFirst | src/renderer/store/noteStore.js:16-29 | partitioning the display order again by starredness changes nothing |
| NoteStore.SortedNotesIdempotent | src/renderer/store/noteStore.js:16-29 | the display order of the display order is the display order itself |
| NoteStore.DisplayOrderFixed | src/renderer/store/noteStore.js:16-29 | starred notes newest first followed by unstarred notes newest first are already in display order |
| NoteStore.DisplayHead | src/renderer/store/noteStore.js:146 | the head of the display order is in the collection; it is starred when any note is; it is the most recent note of its group |
| NoteStore.SortedNotesKeepsUnique | src/renderer/store/noteStore.js:16-29 | if the collection has unique ids, so does the display order |
| NoteStore.FindIndex | src/renderer/store/noteStore.js:56 | findIndex: the index of the first note with the id, or None when no note has it |
| NoteStore.Merge | src/renderer/store/noteStore.js:58-62 | the spread `{...note, ...updates, lastModified: now}`: each field from the update when it has one, else from the note; lastModified always `now` (stated by UpdatePresent) |
| NoteStore.Updated | src/renderer/store/noteStore.js:55-67 | the collection after updateNote: the first match replaced by its merge, or the collection unchanged (stated by UpdatePresent and UpdateAbsent) |
| NoteStore.UpdateAbsent | src/renderer/store/noteStore.js:55-70 | updateNote with an id that is not present leaves the collection identical |
| NoteStore.UpdatePresent | src/renderer/store/noteStore.js:55-67 | updateNote at the first match: the length is the same and every other note is unchanged; each field takes the update's value if given, else the old one; lastModified becomes `now` whatever the update says |
| NoteStore.Toggled | src/renderer/store/noteStore.js:124-131 | the collection after toggleStar: the first match with its flag flipped and lastModified `now`, or unchanged (stated by ToggleTwice) |
| NoteStore.Without | src/renderer/store/noteStore.js:73 | the collection after deleteNote: the filter `note.id !== id` (stated by WithoutMembers, WithoutAppend and WithoutAbsent) |
| NoteStore.ToggleTwice | src/renderer/store/noteStore.js:124-131 | toggling a present id twice restores its starred flag and changes only its lastModified; for an absent id nothing changes |
| NoteStore.WithoutMembers | src/renderer/store/noteStore.js:73 | deleteNote's filter keeps exactly the notes whose id differs: every survivor is a note of the collection with another id, and every such note survives |
| NoteStore.WithoutAppend | src/renderer/store/noteStore.js:73 | the filter distributes over concatenation, so the surviving notes keep their relative order |
| NoteStore.WithoutAbsent | src/renderer/store/noteStore.js:72-76 | deleting an id that is not present leaves the collection identical |
| NoteStore.WithoutKeepsUnique | src/renderer/store/noteStore.js:72-76 | deleting keeps the ids unique |
| NoteStore.UniqueIdsPermutation | src/renderer/store/noteStore.js:87-101 | a permutation of a list with unique ids has unique ids |
| NoteStore.Stamp | src/renderer/store/noteStore.js:93-100 | the map of one group: the note at index i gets lastModified `now - (offset + i)` (stated by ReorderedContents) |
| NoteStore.Reordered | src/renderer/store/noteStore.js:87-101 | updatedNotes with one clock reading: the stamped starred notes of newOrder, then the stamped unstarred ones (stated by ReorderedContents and ReorderThenDisplay) |
| NoteStore.ReorderedContents | src/renderer/store/noteStore.js:87-101 | the reordered collection has the length of newOrder; position i holds the i-th note of "starred of newOrder, then unstarred of newOrder", stamped `now - i`; the stamps strictly decrease; no other note is in it |
| NoteStore.ReorderedKeepsUnique | src/renderer/store/noteStore.js:87-111 | reordering by a list with unique ids gives a collection with unique ids |
| NoteStore.PartitionedOfStarredFirst | src/renderer/store/noteStore.js:88-101 | a list that is already starred-first is its own starred/unstarred partition |
| NoteStore.ReorderThenDisplay | src/renderer/store/noteStore.js:78-113 | the display order of the reordered collection is the reordered collection itself: the caller's starred notes in their given order, then the unstarred ones in theirs |
| NoteStore.ReorderStarredFirst | src/renderer/store/noteStore.js:87-111 | after reordering by a starred-first list, the display order is that list, the note at position i stamped `now - i` |
| NoteStore.ReorderByDisplayIdempotent | src/renderer/store/noteStore.js:78-113 | reordering by the current display order leaves the display order unchanged, apart from the new stamps |
| NoteStore.ClockStamp | src/renderer/store/noteStore.js:93-100 | the map of one group with one clock reading per note, as written |
| NoteStore.ReorderedAsWritten | src/renderer/store/noteStore.js:92-101 | updatedNotes as written, with the clock read afresh for every note (stated by ReorderedAsWrittenSteadyClock and ClockDriftBreaksReorder) |
| NoteStore.ReorderedAsWrittenSteadyClock | src/renderer/store/noteStore.js:92-101 | the reorder with one clock reading per note equals the single-`now` reorder when every reading is the same |
| NoteStore.ClockDriftBreaksReorder | src/renderer/store/noteStore.js:92-101 | if the clock advances 2 ms between the two stamps, two unstarred notes given as [a, b] are displayed as [b, a] |
| NoteStore.ZOrder | src/renderer/store/noteStore.js:116-122 | for an index below 10000, the z-order is at least 10000 exactly when the note is starred, and it is the index modulo 10000 |
| NoteStore.StarredAboveUnstarred | src/renderer/store/noteStore.js:116-122 | every starred z-order exceeds every unstarred z-order whose index is below 10000 |
| NoteStore.ZOrderInjective | src/renderer/store/noteStore.js:116-122 | below 10000, distinct (index, starred) pairs get distinct z-orders |
| NoteStore.LastOpened | src/renderer/store/noteStore.js:140-147 | getLastOpenedNote gives the first note with the stored id if the id is a non-empty string and present; otherwise the head of the display order; nothing exactly when the collection is empty |
| NoteStore.Persisted | src/renderer/store/noteStore.js:8-13 | the storage after saveToStorage: the collection always, the last-opened id only when it is a non-empty string (stated by LoadAfterSave) |
| NoteStore.LoadedNotes | src/renderer/store/noteStore.js:150-153 | the collection after loadFromStorage: the stored one when the key is set, else the current one |
| NoteStore.LoadedLastOpened | src/renderer/store/noteStore.js:154-157 | the last-opened id after loadFromStorage: the stored one when it is a non-empty string, else the current one |
| NoteStore.LoadAfterSave | src/renderer/store/noteStore.js:8-13 | loading what saveToStorage wrote gives back the collection, and the last-opened id when it was non-empty; an empty id leaves the stored one |
| NoteStore.Store.constructor | src/renderer/store/noteStore.js:149-162 | module start: an empty collection and no id, then loadFromStorage |
| NoteStore.Store.LoadFromStorage | src/renderer/store/noteStore.js:149-158 | the collection is replaced only when the key is set, the id only when the stored one is non-empty |
| NoteStore.Store.SaveToStorage | src/renderer/store/noteStore.js:8-13 | the collection is always written; the last-opened id only when it is a non-empty string |
| NoteStore.Store.CreateNote | src/renderer/store/noteStore.js:38-53 | appends exactly one note and leaves earlier notes unchanged; the new note is unstarred; content defaults to '', colour to '#fff7b1', path to null; createTime is `now`; lastModified is the given time, or `now` when absent or 0; ids stay unique; the storage is written |
| NoteStore.Store.UpdateNote | src/renderer/store/noteStore.js:55-70 | the collection becomes `Updated(old, id, updates, now)`; the storage is written only when the id was found; ids stay unique when the update does not change the id |
| NoteStore.Store.DeleteNote | src/renderer/store/noteStore.js:72-76 | the collection becomes `Without(old, id)`; ids stay unique; the storage is written in any case |
| NoteStore.Store.ReorderNotes | src/renderer/store/noteStore.js:78-113 | the collection becomes `Reordered(newOrder, now)` and is its own display order; unique ids of newOrder stay unique; the storage is written |
| NoteStore.Store.ToggleStar | src/renderer/store/noteStore.js:124-131 | the first match has its starred flag flipped and lastModified set to `now`; the storage is written only when the id was found |
| NoteStore.Store.SetLastOpenedNote | src/renderer/store/noteStore.js:134-137 | the id is recorded in memory and in the storage, whether or not a note has it |
| NoteStore.Store.GetLastOpenedNote | src/renderer/store/noteStore.js:140-147 | returns `LastOpened` of the storage's id over the current collection |
| Translations.Split | src/main/translations.js:25 | `key.split('.')`, character by character (stated by SplitPieces, JoinSplit and SplitJoin) |
| Translations.SplitPieces | src/main/translations.js:25 | split gives at least one piece and no piece contains a dot |
| Translations.JoinSplit | src/main/translations.js:25 | joining the pieces with the separator gives the key back |
| Translations.SplitJoin | src/main/translations.js:25 | splitting a join of dot-free pieces gives the pieces back |
| Translations.SplitNoSeparator | src/main/translations.js:25 | a key without a dot splits into itself alone |
| Translations.Child | src/main/translations.js:29-30 | one step of the loop: `result[k]` when `result` is an object holding a truthy value at `k`, else a miss |
| Translations.Walk | src/main/translations.js:28-35 | the loop over the segments: one Child step per segment, stopping at the first miss (stated by WalkAppend and WalkReachesTruthy) |
| Translations.T | src/main/translations.js:23-38 | t over a loaded tree: the node the walk ends at, or the key itself on a miss (stated by TOutcome, TSingleSegment and TDotted) |
| Translations.WalkAppend | src/main/translations.js:28-35 | the walk goes one level per segment, in order: walking `a + b` walks `a`, then `b` from where it stopped |
| Translations.WalkReachesTruthy | src/main/translations.js:29-30 | every node reached over at least one segment is truthy |
| Translations.TOutcome | src/main/translations.js:23-38 | t answers the original key when any segment is missing or falsy; otherwise it answers the truthy node reached, which may be a subtree |
| Translations.TSingleSegment | src/main/translations.js:25-30 | a key without a dot is one top-level lookup |
| Translations.TDotted | src/main/translations.js:28-37 | for `head.rest`, t looks `head` up, then walks the segments of `rest`; a miss anywhere answers the whole original key |
| Translations.TTwoSegments | src/main/translations.js:28-37 | `head.last` is two one-level lookups; a miss at either answers the whole key |
| Translations.TExampleLeaf | src/main/translations.js:28-37 | `menu.new` in a small tree gives its string |
| Translations.TExampleSubtree | src/main/translations.js:37 | `menu` gives the whole subtree, not a string |
| Translations.TExampleFalsy | src/main/translations.js:29-33 | a key whose value is the empty string answers the key |
| Translations.TExampleMissing | src/main/translations.js:29-33 | a missing key answers the key |
| Translations.TExampleBelowLeaf | src/main/translations.js:29-33 | a segment below a string answers the whole key |
| Translations.Locale | src/main/translations.js:6 | the locale is LANG when it is set and non-empty, else 'en' (its use is stated by LocaleFile) |
| Translations.LocaleFile | src/main/translations.js:6-12 | a LANG starting with `zh` selects zh-tw.json and anything else en.json; an unset or empty LANG counts as 'en' |
| Translations.LoadTranslations | src/main/translations.js:9-19 | fails exactly when neither the locale's file nor en.json loads; any result is one of the loaded trees; the locale's file wins when it loads |
| Translations.LoadNonChinese | src/main/translations.js:9-19 | for a LANG not starting with `zh` the result is en.json or nothing, since the retry in the `catch` reads the same file |
| Translations.LoadChinese | src/main/translations.js:9-19 | for a `zh` LANG: zh-tw.json when it loads, otherwise en.json when that loads, otherwise nothing |
| Translations.Translate | src/main/translations.js:23-24 | t as exported: no answer exactly when no file loads; otherwise the key itself or a truthy node |
| Translations.TranslateMissing | src/main/translations.js:23-37 | a key the loaded tree does not hold is answered with the key itself, whichever file was loaded |

| Release.Parse | scripts/release.js:5 | the recogniser for `^\d+\.\d+\.\d+(-\w+)?$`, split into its groups (stated by ParseSound, ParseRender and ValidIffRendered) |
| Release.IsValidVersion | scripts/release.js:5 | the `.test(version)` of the version check: the recogniser accepts (stated by ValidIffRendered) |
| Release.DigitRun | scripts/release.js:5 | the length of the leading run of ASCII digits: everything before it is a digit and the character after it is not |
| Release.DottedGroup | scripts/release.js:5 | a `\d+\.` prefix: a non-empty digit group, a dot, and the rest of the string |
| Release.Suffix | scripts/release.js:5 | `(-\w+)?$`: either nothing, or a dash and one or more word characters up to the end |
| Release.ParseSound | scripts/release.js:5 | whatever the recogniser accepts is the rendering of a well-formed version: three non-empty digit groups, and an optional non-empty `\w` suffix |
| Release.ParseRender | scripts/release.js:5 | every well-formed version is accepted and read back unchanged |
| Release.ValidIffRendered | scripts/release.js:5 | a string passes the check if and only if it is the rendering of a well-formed version |
| Release.AcceptedPlain | scripts/release.js:5 | `1.2.3` is accepted |
| Release.AcceptedWithSuffix | scripts/release.js:5 | `1.2.3-beta1` is accepted |
| Release.RejectedLeadingV | scripts/release.js:5 | `v1.2.3` is rejected |
| Release.RejectedTwoGroups | scripts/release.js:5 | `1.2` is rejected |
| Release.RejectedTrailingDot | scripts/release.js:5 | `1.2.3.` is rejected |
| Release.RejectedDottedSuffix | scripts/release.js:5 | `1.2.3-beta.1` is rejected, because `\w` has no dot |
| Release.RejectedEmptySuffix | scripts/release.js:5 | `1.2.3-` is rejected |
| Release.JudgedBySuffix | scripts/release.js:5 | after three digit groups and a non-digit, acceptance depends on the suffix check alone |
| Release.TagName | scripts/release.js:10 | the template `v${version}` (stated by TagNameInjective) |
| Release.TagNameInjective | scripts/release.js:10 | the tag is `v` followed by the version verbatim, so distinct versions give distinct tags |
| Release.ReleasePlan | scripts/release.js:12-30 | the four commands in the order the script issues them (stated by PlanNamesTag) |
| Release.CommandLine | scripts/release.js:14-30 | the shell text handed to execSync for each command (stated by CommandLineNamesTag) |
| Release.CommandLineNamesTag | scripts/release.js:14-30 | the shell text of every command contains the tag it acts on |
| Release.PlanNamesTag | scripts/release.js:12-30 | the release issues four commands, all on the release's tag, and the annotation message `Release <tag>` names it too |
| Release.Execute | scripts/release.js:12-30 | runs the commands in order; a failing command that is not inside a try/catch stops the script (stated by ExecutePrefix and ExecuteReleasedIff) |
| Release.RunRelease | scripts/release.js:5-30 | the whole script: the version check, then the plan for its tag (stated by InvalidIssuesNothing and ValidRelease) |
| Release.ExecutePrefix | scripts/release.js:12-30 | a run issues a prefix of its command list, in order; when it succeeds it issued all of them; otherwise its last command is the one that failed, and that failure is not ignored |
| Release.ExecuteReleasedIff | scripts/release.js:12-30 | a run succeeds if and only if every command whose failure is not ignored succeeds |
| Release.ExecuteIgnoresIgnorable | scripts/release.js:12-24 | whether the two tag deletions fail never changes what the run does |
| Release.InvalidIssuesNothing | scripts/release.js:5-8 | an invalid version stops the script before any git command |
| Release.ValidRelease | scripts/release.js:10-30 | for a valid version: delete the local tag, delete the remote tag and create the annotated tag are always issued, in that order; the push is issued only if the creation succeeded; the release succeeds exactly when the creation and the push both do |

## Findings

| source | as written | input that shows it | evidently intended | confidence | as-written member | corrected member |
|---|---|---|---|---|---|---|
| src/renderer/store/noteStore.js:95-99 | `Date.now()` is read afresh for every note while the reorder stamps are computed | two unstarred notes [a, b], with the clock reading 100 for a and 102 for b: the stamps are 100 and 101, so the display order becomes [b, a] | one clock reading for the whole reorder, so that the stamps strictly decrease and the display order reproduces the caller's order | medium (needs the clock to advance 2 ms or more during one reorder), not executed | `NoteStore.ClockDriftBreaksReorder` | `NoteStore.ReorderThenDisplay` |

The store's `ReorderNotes` uses the corrected reorder, with one `now` for the whole call. `ReorderedAsWritten` models the code as written, with one clock reading per note. `ReorderedAsWrittenSteadyClock` shows the two agree while the clock stands still. A drift of 1 ms only creates a tie, and the stable sort still keeps a tie in order.

## Left out

- Persistence: `localStorage` and `JSON.stringify`/`JSON.parse` are replaced by a `Storage` value holding the collection itself. A malformed stored collection, which makes `loadFromStorage` throw, is not modelled, and neither is a failed write.
- Reactivity: Vue `ref`/`computed` is not modelled; the display order is the function `SortedNotes`. The write to the computed ref in `deleteNote` (line 75) has no effect and is not modelled.
- The `console.log` calls in `reorderNotes`, and the `console.error` and `console.log` messages of the release script, are not modelled.
- NoteStore.Store.CreateNote: `nanoid` becomes a `freshId` parameter, with the precondition that no note has it yet. `Date.now()` is one `now` used for both `createTime` and `lastModified`, while the code reads the clock twice. The supplied modification date is its millisecond value as an `int`; an invalid date, whose `getTime()` is `NaN`, is not modelled.
- NoteStore.Store.ReorderNotes: uses one clock reading `now` for the whole reorder. The code reads `Date.now()` once per note; that version is `ReorderedAsWritten`, and Findings shows where the two differ.
- NoteStore.Store.ToggleStar: the code mutates the note object in place. The model replaces the element of the sequence instead, so other references to the same object (the note returned by `createNote`, say) do not see the change in the model.
- NoteStore.NoteUpdate: an update carries only the eight keys of a note. Other keys, which JavaScript spread would copy onto the note, are not modelled. Values keep the field's type.
- JavaScript numbers are modelled as unbounded integers, so floating-point rounding of very large timestamps or z-orders is not modelled.
- Translations: the root is always an object. Property access on a string (character indices, `length`) is not modelled: a string has no children. Neither are keys inherited from `Object.prototype` (`constructor`, `toString`), nor JSON values other than strings and objects.
- Translations: reading and parsing the files at `path.join(__dirname, ...)` is a map from file name to parsed tree; a name absent from the map is a file that cannot be read or parsed.
- Release: reading `package.json`, a non-string `version` and the `stdio` settings are not modelled. Each command is a value, and its success is a parameter. A failing tag creation or push, which the script does not catch, is modelled as the exit `CommandFailed`; only the exception value and the process exit code are left out, for it and for `process.exit(1)`.
- The Electron main process, window and tray management, global shortcuts, the preload bridge, the HTTP translation helper, the notification store, the renderer's i18n set-up and notarisation are not part of this model. They are OS, UI and network glue around the core.
