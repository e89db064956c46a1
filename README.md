# Notes widget — a Dafny model

The widget keeps short text notes in one browser-storage slot under the key
`notes-app-v1`. It renders them as a list that can be searched and sorted. On
each event (submit, edit, delete, search input, sort change, page load) it
loads the whole collection, may change and save it, and then re-renders
everything. The exceptions are a rejected submit, a cancelled prompt and a
declined confirmation: these return before anything is loaded or rendered.
This project models that logic, all of it in `app.js`:

- `sequences.dfy` (module `Sequences`): `Array.prototype.filter`, the
  order-preserving subsequence relation, and reversal.
- `text.dfy` (module `Text`): `trim`, lower-casing, `includes`, and the title
  comparison.
- `notes.dfy` (module `Notes`): the `Note` record, editing by id (the `map` in
  `editNote`), deleting by id (the `filter` in `deleteNote`), and id uniqueness.
- `query.dfy` (module `Query`): the search filter, the sort comparator for the
  options `new`, `old`, `az`, `za` and any other value, a stable insertion sort
  as the specification of `notes.sort`, and that sort run in place on an array.
- `date_format.dfy` (module `DateFormat`): `formatDate`'s day buckets.
- `view.dfy` (module `View`): what the list shows, as abstract view items. These
  are one empty-state message, or one card per note with fallback labels.
- `app.dfy` (module `App`): class `NotesApp`. Its fields are the storage slot,
  the form, search and sort inputs, and the list container. It has one method
  per event handler.
- `scenarios.dfy` (module `Scenarios`): worked sorting and searching scenarios.

Timestamps are integer milliseconds. The storage slot is the field
`NotesApp.stored`: `loadNotes` reads it and `saveNotes` assigns it. The caller
supplies the fresh id, the clock readings and the answers to the dialogs as
parameters.

Two behaviours of the code are easy to miss, and the model follows them:
- A malformed stored blob makes `JSON.parse` throw. Nothing recovers it to an
  empty list; a missing key or an empty stored value defaults to `[]`.
- A time difference of exactly 0 ms falls in day bucket 0. Bucket 0 gets the
  date and time, not "Today" (`DateFormat.SameInstantIsNotToday`).

## Model

| member | source | states |
|---|---|---|
| `Sequences.Filter` | app.js:26-28 | The result is an order-preserving subsequence of the input. Each element is kept exactly as often as it occurs, if and only if it satisfies the predicate. When every element satisfies it, the input comes back unchanged. |
| `Text.Trim` | app.js:163-164 | The result is empty iff every character is ECMAScript whitespace. Otherwise it neither starts nor ends with whitespace. It is the slice of the input after the leading whitespace, and everything after it is whitespace. |
| `Text.Lower` | app.js:20 | Same length, and each character is lower-cased (ASCII letters). |
| `Text.Contains` | app.js:27 | The model of `includes`: the query is a prefix of the text or of one of its suffixes. `Text.ContainsAt` states what this means. |
| `Text.ContainsAt` | app.js:27 | `Text.Contains` holds iff some window of the text spells the query, the empty query included. |
| `Text.ContainsWitness` | app.js:27 | When `includes` holds, some window of the text spells the query. |
| `Text.OccursContains` | app.js:27 | A window of the text that spells the query makes `includes` hold. |
| `Text.StrCompare` | app.js:36-37 | The comparison returns -1, 0 or 1. It is 0 iff the titles are equal, and a proper prefix sorts first. Its order laws are the two lemmas below. |
| `Text.StrCompareAntisymmetric` | app.js:36-37 | Swapping the titles negates the comparison, and only equal titles compare equal. |
| `Text.StrCompareTransitive` | app.js:36-37 | "Sorts no later than" is transitive for titles. |
| `Notes.EditById` | app.js:122-126 | Same length. Every note keeps its `id` and `created`. Notes with the edited id get the trimmed new title and body and the new `updated`. Every other note is identical. |
| `Notes.ReplaceById` | app.js:122-126 | The `map` step with the title and body already trimmed. Same length. Ids and `created` are kept. Matching notes get the given title, body and `updated`. The others are identical. |
| `Notes.EditAbsentUnchanged` | app.js:122-126 | Editing an id no note carries leaves the collection unchanged. |
| `Notes.EditKeepsUniqueIds` | app.js:122-126 | An edit keeps ids unique. |
| `Notes.EditKeepsTimesOrdered` | app.js:124 | If the edit time is no earlier than the edited note's creation, `created <= updated` stays true for all notes. |
| `Notes.RemoveById` | app.js:136 | The result holds exactly the notes whose id differs, with their multiplicities, in original order. An absent id leaves the collection unchanged. |
| `Notes.RemoveKeepsUniqueIds` | app.js:136 | Deleting keeps ids unique, and no note with the deleted id remains. |
| `Notes.RemovePresentShrinksByOne` | app.js:136 | With unique ids, deleting a present id shortens the collection by exactly one. |
| `Notes.PrependFreshKeepsUniqueIds` | app.js:173-183 | Prepending a note with a fresh id keeps ids unique. |
| `Query.QueryText` | app.js:20 | The search text holds no upper-case ASCII letter and neither starts nor ends with whitespace. |
| `Text.LowerHasNoUpper` | app.js:20 | A lower-cased string holds no upper-case ASCII letter. |
| `Query.QueryTextIgnoresCase` | app.js:20 | The search text used is the same whatever the case of what was typed. |
| `Query.Matches` | app.js:26-27 | The filter's test for one note. The empty query matches every note. `Query.MatchesLowered` states what the test looks at. |
| `Query.MatchesLowered` | app.js:27 | A note matches iff the query occurs in its lower-cased title, a space and its lower-cased body. |
| `Query.SearchFilter` | app.js:25-29 | The result is an order-preserving subsequence. Every kept note matches. Every matching note is kept as often as it is stored. An empty query keeps every note. |
| `Query.Compare` | app.js:33-38 | The comparator handed to `sort`, one case per option. What each case means is stated by `Query.CompareMeaning` and `Query.CompareIsTotalPreorder`. |
| `Query.CompareMeaning` | app.js:33-38 | `new` puts the later `updated` first and `old` the earlier one. `az` puts the title that sorts first first and `za` the one that sorts last. Only equal keys tie. Any other option ties every pair. |
| `Query.CompareIsTotalPreorder` | app.js:32-40 | For every option, the comparator ties a note with itself, is asymmetric on strict order, and is transitive. |
| `Query.SortBy` | app.js:32-40 | The stable insertion sort that specifies `notes.sort`. `Query.SortByCorrect` states that it is a permutation in the option's order. |
| `Query.SortByCorrect` | app.js:32-40 | The sorted result is a permutation of the input, ordered by the option's comparator. |
| `Query.SortedMembers` | app.js:32-40 | Sorting lists exactly the notes it is given. |
| `Query.SortNewestFirst` | app.js:34 | With `new`, `updated` does not increase along the result. |
| `Query.SortOldestFirst` | app.js:35 | With `old`, `updated` does not decrease along the result. |
| `Query.SortTitleAscending` | app.js:36 | With `az`, titles do not decrease in code-point order. |
| `Query.SortTitleDescending` | app.js:37 | With `za`, titles do not increase in code-point order. |
| `Query.SortUnknownOptionKeepsOrder` | app.js:38 | With any other option every pair ties, and the stable sort returns the input order. |
| `Query.OldIsReverseOfNew` | app.js:34-35 | When no two notes share an `updated` value, sorting by `old` gives exactly the reverse of sorting by `new`. |
| `Query.AscendingArrangementUnique` | app.js:35 | Two permutations of the same notes that both ascend by `updated`, without ties, are equal. |
| `Query.InsertInPlace` | app.js:32 | One pass of the in-place sort: the new prefix is the sorted prefix with the next note inserted stably, and the rest of the array is untouched. |
| `Query.SortNotes` | app.js:32-40 | After the in-place sort, the array holds the stable sort of its old contents. |
| `DateFormat.DayBucket` | app.js:145-146 | The bucket is the ceiling of the difference over one day: `(d - 1) * day < diff <= d * day`. |
| `DateFormat.DayBucketUnique` | app.js:146 | Any whole number satisfying the ceiling bounds is the bucket. |
| `DateFormat.FormatDate` | app.js:142-157 | In milliseconds: "Today" iff `0 < diff <= 1 day`. "Yesterday" iff `1 day < diff <= 2 days`. Date and time iff `diff == 0`, or `2 days < diff <= 7 days`. Date alone iff `diff > 7 days`. The label carries the note's own instant. |
| `DateFormat.FormatDateByBucket` | app.js:148-156 | By bucket `d`: "Today" iff `d == 1`. "Yesterday" iff `d == 2`. Date and time iff `d <= 7` and `d` is neither 1 nor 2. Date alone iff `d > 7`. |
| `DateFormat.SameInstantIsNotToday` | app.js:145-149 | A zero difference is bucket 0 and is labelled with date and time, not "Today". |
| `View.EmptyMessage` | app.js:49-51 | The empty-state text is the "no notes yet" message iff the query is empty. Otherwise it ends with the query and a closing quote. |
| `View.EmptyMessagesDiffer` | app.js:49-51 | The "no notes yet" message is never a query echo. |
| `View.EmptyMessageEchoesQuery` | app.js:46-51 | A non-empty search that matches no stored note renders exactly one empty state naming the query. With an empty search, the generic "no notes yet" state shows iff nothing is stored. |
| `View.NoteCard` | app.js:64-101 | A card carries the note's id for its edit and delete triggers. An empty title shows as "📝 Untitled Note" and an empty body as "No content". The time is `formatDate(updated)`. |
| `View.CardLabelsNonEmpty` | app.js:73-85 | A card never shows an empty title or body. |
| `View.Cards` | app.js:57-60 | One card per note, in order. |
| `View.RenderList` | app.js:46-60 | No notes gives exactly one empty-state item. Otherwise there is one card per note, in result order, and no empty state. |
| `View.ShownNotes` | app.js:19-40 | A note is listed iff it is stored and matches the query. |
| `View.ViewOf` | app.js:19-60 | The view is never empty, and its first item is the empty state iff no note is listed. |
| `View.ShownNotesAreMatches` | app.js:19-40 | The listed notes are the stored notes that match the query, each as often as it is stored, ordered by the option. |
| `View.ViewEmptyIffNoMatch` | app.js:46-54 | The list is the empty state iff no stored note matches the query. |
| `View.EmptyStartupView` | app.js:202-204 | Empty storage and an empty search field render the generic empty state. |
| `App.NotesApp.constructor` | app.js:202-205 | Page load: the inputs keep the values the page starts them with, and the list is the view of the saved notes under that search text and sort option. With empty storage and an empty search, this is the generic empty state (`View.EmptyStartupView`). |
| `App.NotesApp.RenderNotes` | app.js:19-61 | The list becomes the view of the stored notes under the current search text and sort option. |
| `App.NotesApp.LoadSorted` | app.js:22-40 | A fresh array holding the loaded, filtered notes, sorted stably. |
| `App.NotesApp.FillList` | app.js:43-60 | The list is cleared and then holds the empty state or the cards. |
| `App.NotesApp.AppendCards` | app.js:57-60 | The cards of the array's notes are appended in order. |
| `App.NotesApp.FillForm` | app.js:5-6 | The user's input replaces the title and body field values. |
| `App.NotesApp.Submit` | app.js:160-195 | Accepted iff the trimmed title or trimmed body is non-empty. A rejection changes nothing. Acceptance stores the new note at index 0 with the old notes after it in order (length grows by exactly one), clears the form and re-renders. Unique ids stay unique. |
| `App.NotesApp.SaveNew` | app.js:182-191 | The new note is stored at index 0 before the old notes, the form is cleared and the list re-rendered. Unique ids stay unique. |
| `App.NotesApp.EditNote` | app.js:115-130 | Either prompt cancelled changes nothing. Otherwise the storage becomes `EditById` of the old storage, and the list is re-rendered. Unique ids stay unique. |
| `App.NotesApp.DeleteNote` | app.js:133-139 | A declined dialog changes nothing. Otherwise the storage becomes `RemoveById` of the old storage, and the list is re-rendered. Unique ids stay unique. |
| `App.NotesApp.OnSearchInput` | app.js:198 | The new search text is used and the list is re-rendered. |
| `App.NotesApp.OnSortChange` | app.js:199 | The new sort option is used and the list is re-rendered. |
| `Scenarios.AlphaBetaOrder` | app.js:32-40 | After creating "Alpha" then "Beta": `az` lists Alpha first, `za` lists Beta first, `old` lists Alpha first. |
| `Scenarios.AlpQueryText` | app.js:20 | Typing "alp" or "ALP" gives the search text "alp". |
| `Scenarios.AlpMatchesAlpha` | app.js:26-27 | "alp" occurs in the lower-cased "Alpha x". |
| `Scenarios.AlpMissesBeta` | app.js:26-27 | "alp" does not occur in the lower-cased "Beta y". |
| `Scenarios.AlphaSearch` | app.js:19-40 | With the same two notes, searching "alp" (in either case) under `new` lists Alpha alone. |

## Left out

- DOM element construction, `innerHTML`/`textContent`, CSS class names, the edit and delete buttons' labels, listener wiring and `focus()` are not modelled. The list is a sequence of abstract view items; the empty-state message is taken as text, not parsed as HTML.
- `localStorage` and JSON are reduced to reading and assigning `NotesApp.stored`. The exception `JSON.parse` throws on a corrupt blob is not modelled.
- `crypto.randomUUID()` becomes the `id` parameter of `Submit`, which must not be in use.
- `prompt`, `confirm` and `alert` become inputs: `Option<string>` answers for edit, a `bool` for delete, and the `accepted` result of `Submit` for the alert.
- ISO-string timestamps, `new Date()` and `toISOString` are integer milliseconds passed in by the caller. `toLocaleTimeString` and `toLocaleDateString` are abstract: a label carries only its kind and instant.
- One render uses a single `now`, where the source reads the clock once per note.
- `created` and `updated` are separate parameters, because they come from two clock reads. `created <= updated` is not an invariant of the collection: it depends on the clock (see `Notes.EditKeepsTimesOrdered`).
- Text.StrCompare: stands in for `localeCompare` by code-point lexicographic order. Locale collation is library behaviour outside the code, so the sort claims apply only to this total preorder.
- Text.Lower: lower-cases ASCII letters only, not the full Unicode mapping of `toLowerCase`.
- Query.SortByCorrect: states sortedness and permutation, not stability among tied notes in general. Stability is proved only for the all-ties case (`Query.SortUnknownOptionKeepsOrder`). `SortBy` is a stable insertion sort by construction.
- Notes.EditById: stamps every note carrying the id with one `now`, where the source reads the clock once per matching note. The two agree whenever at most one note carries the id, which holds while ids are unique.
- Races between browser tabs (last save wins) are outside the single-threaded model.
