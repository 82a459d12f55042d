# To-do list with a spreadsheet back end: a Dafny model

The application is a browser to-do list (`app.js`) that talks to a small
Express server (`server.js`). The server keeps every task as one row of a
Google Sheets tab. This project models the logic of both sides once the
browser and the Sheets API are taken away:

- **ClientView** (`client_view.dfy`) models `getFilteredAndSortedTasks` and
  `formatDueDate`. The rendered list is built by:
  - the page's pre-filter: a ±7-day window on the register page, or a
    category on the list page;
  - the completion filter;
  - a stable sort, by priority rank or by due date with undated tasks last.

  `formatDueDate` turns the whole-day distance to the due date into a badge.
- **ClientState** (`client_state.dfy`) models the module-level state of
  `app.js` as the class `App`. Its methods are `loadTasks`, `addTask` (create
  or edit), `toggleTask` and `deleteTask`. The server's answer is a parameter:
  the parsed answer, or None for a failed call; for `deleteTask` it is the flag
  `replyOk`. `addTask`, `toggleTask` and `deleteTask` return the request they
  send and leave the cache unchanged when their call fails. A failed
  `loadTasks` empties the cache.
- **RowStore** (`row_store.dfy`) models the pure parts of `server.js`:
  - the 3-digit id allocator `getNextTaskId`, including `/^\d{1,3}$/`, `trim`,
    `parseInt`, `toString`, `padStart` and `slice(-3)`;
  - the row→task decoding of GET;
  - the row and the answer built by POST;
  - the header-skipping search of PUT and DELETE;
  - the `??` merge of PUT.
- **SheetServer** (`sheet_server.dfy`) holds the tab as the class `Sheet`,
  whose field `rows` is a `seq<seq<string>>` with the header at index 0. It
  has:
  - the three Sheets writes the server issues: `values.append`,
    `values.update` of one A1 row, and `deleteDimension`;
  - the four REST handlers, built on those writes.
- **RoundTrips** (`round_trips.dfy`) relates a client request to what the
  server stores. It proves when a cache update in `app.js` leaves the cache
  equal to what the next GET returns, under the conditions each lemma states
  (unique ids for DELETE). There are two exceptions:
  - After an edit or a toggle the client stores the PUT answer. That answer
    equals the next GET's task only when the merged priority cell is not empty
    (`RowStore.UpdatedTaskMatchesListIff`). A toggle on a row with an empty
    priority cell leaves priority "" in the cache, while the next GET lists
    "medium". `RoundTrips.UpdateKeepsCacheInSync` states the sync for the
    decoded merged row, and says exactly when the answer is that row.
  - A create stays in sync only when the sheet already has a header row. A row
    appended to an empty sheet becomes the header and is never listed
    (`RowStore.AppendToEmptySheetIsHidden`).

Dates are integers:
- `timeOf(s)` is the local wall-clock time of `new Date(s)` in milliseconds, that is `getTime()` plus a fixed time-zone offset. The date sort compares `getTime()` values, and agrees with `timeOf` because time zones and DST are left out.
- A day is `ms / 86400000`.
- `today` is the current local day number.

Both the register filter (`Math.round`) and `formatDueDate` (`Math.ceil`)
divide a difference of two local midnights by one day. So both reduce to the
same integer `DayDiff`.

In these places the code's own behaviour is worth spelling out:
- A stored `completed` cell reads as done only when it is the text `true`.
  No other text, such as `TRUE` or `1`, reads as done.
- A PUT writes `completed` as `'true'`/`'false'` from the JavaScript
  truthiness of the value sent, and only when the field is present.
- The PUT answer takes `priority` from the merged row without GET's
  `'medium'` default. `RowStore.UpdatedTaskMatchesListIff` pins down exactly
  when the answer and the next GET differ.

## Model

| member | source | states |
|---|---|---|
| TaskTypes.Or | server.js:107-111 | definition of `v \|\| d`: an absent, null or empty string falls back to `d` |
| TaskTypes.OrNull | server.js:108 | definition of `v \|\| null`: an empty string becomes null |
| TaskTypes.Coalesce | server.js:190-197 | definition of `v ?? d`: only an absent or null value falls back, an empty string is kept |
| TaskTypes.DigitChar | server.js:82 | the character of a number below ten is a decimal digit |
| ClientView.DayDiff | app.js:236-242 | definition: whole days from today's midnight to the due date's midnight, the value both `Math.round` (app.js:242) and `Math.ceil` (app.js:285) take in the model |
| ClientView.Filter | app.js:238-256 | a task is in the result iff it is in the input and satisfies the predicate, and the result is never longer than the input |
| ClientView.FilterCount | app.js:253-257 | each task occurs in the filtered list as often as in the input when it passes the predicate, and not at all otherwise |
| ClientView.FilterAppend | app.js:238-256 | filtering distributes over concatenation, so relative order is kept |
| ClientView.FilterCommute | app.js:236-257 | the view filter and the completion filter can be applied in either order |
| ClientView.FilterKeepsAll | app.js:247-249 | when every task passes, filtering removes nothing |
| ClientView.InWeekWindow | app.js:236-244 | definition: on the register page a task passes when it has a due date at most 7 whole days before or after today |
| ClientView.InCategory | app.js:245-250 | definition: on the list page a task passes when the category is 'all' or equals the task's category |
| ClientView.PassesCompletion | app.js:252-257 | definition: 'active' keeps tasks not completed, 'completed' keeps completed ones, anything else keeps all |
| ClientView.Rank | app.js:261-262 | definition of the `order` table: high 0, medium 1, low 2 |
| ClientView.KeyOf | app.js:259-268 | definition of the comparator key: the priority rank, or the due date's time with Infinity (`Never`) for an undated task |
| ClientView.Insert | app.js:260-269 | inserting adds exactly one occurrence of the task (multiset) |
| ClientView.SortTasks | app.js:260-269 | the sorted list is a permutation of its input |
| ClientView.InsertSorted | app.js:260-269 | inserting into a list ordered by the comparator key keeps it ordered |
| ClientView.SortTasksSorted | app.js:260-269 | the sort's output is ordered by the comparator key |
| ClientView.InsertStable | app.js:260-269 | a task inserted goes in front of the tasks the comparator calls equal to it |
| ClientView.SortTasksStable | app.js:260-269 | for every key, the tasks with that key keep their input order (stability) |
| ClientView.FilteredAndSorted | app.js:229-272 | the rendered list is never longer than the cache, and a task is in it iff it is in the cache and passes both the page filter and the completion filter |
| ClientView.ViewKeepsExactlyMatching | app.js:229-271 | the rendered list holds every occurrence of each task passing the page filter and the completion filter and nothing else; it is a sub-multiset of the cache |
| ClientView.UnfilteredListKeepsEverything | app.js:245-257 | on the list page with category 'all' and filter 'all' the rendered list is a reordering of the whole cache |
| ClientView.ViewSorted | app.js:259-269 | the rendered list is ordered by the active comparator's key |
| ClientView.ViewStable | app.js:259-269 | tasks with equal keys appear in the rendered list in the same relative order as in the cache |
| ClientView.PrioritySortOrder | app.js:260-263 | with the priority sort, ranks never decrease: high, then medium, then low |
| ClientView.DateSortOrder | app.js:264-268 | with the date sort, no undated task precedes a dated one, and dated tasks come in non-decreasing time |
| ClientView.DueBadgeBuckets | app.js:275-293 | no badge without a due date; otherwise overdue iff d<0, today iff d=0, soon iff d=1, upcoming iff 2≤d≤7 with text あと d 日, and a plain locale date with empty class iff d>7 |
| ClientView.FormatDueDate | app.js:275-293 | there is no badge iff the due date is falsy, and a badge has the empty class iff it shows the plain locale date |
| ClientView.RegisterViewBadges | app.js:236-244 | every task on the register page has a relative badge: the ±7-day window never yields the plain-date bucket |
| ClientState.FindIndex | app.js:95 | the index of the first task with the id, or -1 when no task has it |
| ClientState.ReplaceById | app.js:95-98 | only the first task with the id is replaced; every other position and the length are unchanged; no match leaves the list as it was |
| ClientState.WithoutId | app.js:196 | the remaining list is never longer, and a task is in it iff it is in the cache and carries another id |
| ClientState.WithoutIdDrops | app.js:196 | deleting drops every task with the id, keeps every other task with its multiplicity, and keeps order |
| ClientState.EditRequest | app.js:83-92 | the edit's PUT body carries the form's title, content, category and priority, never `completed`; its due date is null iff the form's date is empty and is that date otherwise |
| ClientState.CreateTaskRequest | app.js:110-119 | the POST body carries the form's title, content, category and priority; its due date is null iff the form's date is empty and is that date otherwise |
| ClientState.ToggleRequest | app.js:209-214 | the toggle's PUT body carries `completed` and no other field |
| ClientState.App.constructor | app.js:6-12 | the initial state: empty cache, filter all, date sort, category all, register page, no edit, not loading |
| ClientState.App.LoadTasks | app.js:64-76 | the server's list replaces the cache; a failed load empties it; loading is over afterwards |
| ClientState.App.AddTask | app.js:79-128 | while editing: PUT the form with `dueDate \|\| null`, replace the edited task by the answer, and clear editingTaskId; otherwise POST the form and append the answer; a failed call changes nothing |
| ClientState.App.ToggleTask | app.js:204-226 | an unknown id sends nothing; otherwise PUT the negated flag and replace the first task with the id by the answer |
| ClientState.App.DeleteTask | app.js:188-201 | nothing is sent unless the user confirms; after a successful DELETE every task with the id leaves the cache |
| RowStore.DigitsValue | server.js:68 | definition of `parseInt(s, 10)` on a string of decimal digits; its round trip is ThreeDigitsValue |
| RowStore.Decimal | server.js:82 | `n.toString()` is a non-empty string of decimal digits |
| RowStore.PadStart3 | server.js:82 | `padStart(3, '0')` gives 3 characters from a shorter string and leaves a longer one as long as it was |
| RowStore.LastThree | server.js:86 | definition of `slice(-3)`: the whole string up to three characters, else its last three; its use is stated by DecimalEnds and PaddedLastThree |
| RowStore.ThreeDigitsValue | server.js:82 | a three-digit rendering is 3 digits long, matches `/^\d{1,3}$/` and parses back to its number |
| RowStore.DecimalEnds | server.js:86 | `n.toString()` of a number of three digits or more ends in its hundreds, tens and units digits |
| RowStore.LowDigits | server.js:86 | the last three decimal digits of n are those of n % 1000 |
| RowStore.PaddedLastThree | server.js:86 | `n.toString().slice(-3).padStart(3, '0')` is the three-digit rendering of n % 1000 |
| RowStore.PaddedDecimal | server.js:82 | `n.toString().padStart(3, '0')` is the three-digit rendering of n for n < 1000 |
| RowStore.TrimStart | server.js:67 | definition of `trimStart`: drop leading ECMAScript white space; stated by TrimStartStrips |
| RowStore.TrimEnd | server.js:67 | definition of `trimEnd`: drop trailing ECMAScript white space; stated by TrimEndStrips |
| RowStore.Trim | server.js:67 | definition of `trim` as trimEnd after trimStart; stated by TrimIdempotent and TrimUnchanged |
| RowStore.TrimStartStrips | server.js:67 | trimStart removes a leading run of ECMAScript white space and nothing else |
| RowStore.TrimEndStrips | server.js:67 | trimEnd removes a trailing run of ECMAScript white space and nothing else |
| RowStore.TrimIdempotent | server.js:67-68 | a trimmed id has no white space at either end, and trimming again changes nothing |
| RowStore.TrimUnchanged | server.js:67-68 | a string without white space at either end is its own trim |
| RowStore.HasNumericId | server.js:67 | definition: the id cell, trimmed, is 1 to 3 decimal digits (an empty or missing cell never is) |
| RowStore.IdValue | server.js:68 | the parsed id of such a row is at most 999 |
| RowStore.ExistingIds | server.js:65-68 | definition of `existingIds` over the rows after the header; stated by ExistingIdsExactly |
| RowStore.NumericIds | server.js:65-68 | every id kept from the data rows is at most 999 |
| RowStore.NumericIdsHas | server.js:65-68 | every data row whose trimmed id cell is 1 to 3 digits contributes its parsed value |
| RowStore.NumericIdsFrom | server.js:65-68 | conversely, every listed id is the parsed id of some row whose trimmed id cell is 1 to 3 digits |
| RowStore.ExistingIdsExactly | server.js:65-68 | a number is in `existingIds` iff some data row (never the header) has a 1-to-3-digit trimmed id parsing to it |
| RowStore.ShortNumeralBound | server.js:67-68 | a string of k ≤ 3 digits parses to less than 10^k |
| RowStore.Max | server.js:76 | the maximum is one of the ids and bounds all of them |
| RowStore.NextIdValue | server.js:70-79 | the next value is always in 1..999 |
| RowStore.NextTaskId | server.js:54-82 | the allocated id is 3 characters, all digits, with value in 1..999, and is "001" when no numeric id exists |
| RowStore.FallbackTaskId | server.js:86 | after a failed read, the id is 3 digits denoting the clock in milliseconds modulo 1000 |
| RowStore.NextTaskIdValue | server.js:70-82 | the allocated id denotes 1 when there is no id, max+1 when max < 999, and 1 when max ≥ 999 |
| RowStore.NextTaskIdDigits | server.js:76-82 | the allocated id is the zero-padded three-digit rendering of the next value |
| RowStore.NextTaskIdWraps | server.js:79 | once a data row carries id 999 the next id is "001" |
| RowStore.NumericIdsSkip | server.js:67 | a row whose id is not 1 to 3 digits after trimming adds no id |
| RowStore.NextTaskIdIgnoresMalformed | server.js:65-68 | a row whose id is not 1 to 3 digits does not change the allocation |
| RowStore.NextTaskIdOnEmptySheet | server.js:70-73 | a sheet holding only its header allocates "001" |
| RowStore.NoNumericIdGives001 | server.js:65-73 | when no data row has a 1-to-3-digit id, the allocated id is "001" |
| RowStore.MaxIsLargestRowId | server.js:76 | `maxId` is carried by some data row and no data row's numeric id exceeds it |
| RowStore.SingleDigitId | server.js:67-68 | a one-digit id cell contributes that digit's value |
| RowStore.NextTaskIdAfterSingleDigit | server.js:76-82 | after the single id d (d ≤ 8) comes "00" followed by d+1; after 5 comes "006" |
| RowStore.NextTaskIdFresh | server.js:65-82 | until the counter wraps, the allocated id equals no data row's id cell |
| RowStore.DecodeRow | server.js:104-112 | the task's id is the row's id cell, its priority is never empty, a due date is never the empty string, and it is completed iff column E is the text 'true' |
| RowStore.DecodeBody | server.js:104-112 | one task per data row, in order, each decoded with GET's defaults |
| RowStore.DecodeRows | server.js:102-112 | the list has one task per row after the header, in sheet order, and the header is never listed |
| RowStore.NewRow | server.js:133-143 | the appended row has 9 cells, starts with the id, and holds 'false', 'Web' and an empty reserved cell in columns E-G, and a non-empty priority |
| RowStore.CreatedTask | server.js:152-160 | the POST answer carries the id and the non-empty title, is not completed, and has a non-empty priority |
| RowStore.NewRowRoundTrip | server.js:133-160 | the appended row has 9 cells, and decoding it gives exactly the answered task, which is not completed |
| RowStore.FindFrom | server.js:179 | the search from a row on returns the first row holding the id, or none when no later row has it |
| RowStore.FindRow | server.js:179-183 | only rows after the header are searched; the first match is returned; none iff no data row holds the id |
| RowStore.MergeRow | server.js:188-198 | the written row has 9 cells and starts with the id; columns F and G are the stored ones, and column E is kept unless `completed` was sent |
| RowStore.UpdatedTask | server.js:207-215 | definition of the PUT answer read from the written row, with `dueDate \|\| null` and no priority default; compared with GET by UpdatedTaskMatchesListIff |
| RowStore.MergeRowFields | server.js:188-198 | the merged row has 9 cells; id, source tag and reserved cells are kept; each field absent or null keeps its stored value and each present one replaces it; `completed` changes only when sent |
| RowStore.UpdatedTaskMatchesListIff | server.js:207-215 | the PUT answer equals the next GET's task for that row iff the merged priority cell is not empty |
| RowStore.DecodeAppend | server.js:145-150 | on a sheet with a header row, after an append GET lists the old tasks followed by the new row's task |
| RowStore.AppendToEmptySheetIsHidden | server.js:104 | a row appended to a sheet without a header lands at index 0 and is never listed |
| RowStore.DecodeOverwrite | server.js:200-205 | overwriting data row i changes exactly the (i-1)-th listed task |
| RowStore.DecodeDelete | server.js:249-262 | deleting data row i removes exactly the (i-1)-th listed task and keeps the others in order |
| SheetServer.Sheet.constructor | server.js:26-27 | the tab starts with the given rows |
| SheetServer.Sheet.Append | server.js:145-150 | values.append adds the row after the last row |
| SheetServer.Sheet.UpdateRow | server.js:200-205 | values.update of A{n}:I{n} overwrites 0-based row n-1 only |
| SheetServer.Sheet.DeleteRows | server.js:249-262 | deleteDimension removes rows [startIndex, endIndex) and keeps the rest in order |
| SheetServer.Sheet.GetTasks | server.js:95-119 | GET answers one decoded task per data row, in order |
| SheetServer.Sheet.PostTask | server.js:122-165 | a falsy title gives 400 and writes nothing; otherwise exactly one 9-cell row is appended with the allocated id (from the sheet, or from the clock after a failed read), 201 answers the created task, and on a sheet with a header row the next GET lists the old tasks followed by it |
| SheetServer.Sheet.PutTask | server.js:168-220 | an unknown id gives 404 and writes nothing; otherwise only the first matching row is replaced by the merge, the answer is read from the merged row, and the next GET differs in that task only |
| SheetServer.Sheet.DeleteTask | server.js:223-269 | an unknown id gives 404 and removes nothing; otherwise exactly the first matching row is removed, the row count drops by one, and the next GET lists every other task in order |
| RoundTrips.EditDueDateMerge | app.js:83-92 | an edit whose due date was cleared keeps the stored date, since the client sends null and the server merges with `??`; a non-empty date replaces it |
| RoundTrips.ToggleChangesOnlyCompleted | app.js:209-214 | a toggle's PUT changes the stored task in its completion flag only |
| RoundTrips.CreateRequestAccepted | server.js:124-160 | the client's create request is refused iff the title is empty; otherwise the answer carries the form's values with the server's defaults and is not completed |
| RoundTrips.CreateKeepsCacheInSync | app.js:121 | on a sheet with a header row, appending the POST answer to a cache equal to GET's list gives the next GET's list |
| RoundTrips.FirstMatchAgrees | app.js:217 | for a non-empty id, the first cached task with it is the task of the first sheet row with it |
| RoundTrips.UpdateKeepsCacheInSync | app.js:217-220 | replacing the first cached task with the id by the decoded merged row gives the next GET's list; the PUT answer is that task iff the priority cell is not empty |
| RoundTrips.DeleteKeepsCacheInSync | app.js:196 | when exactly one data row holds the id, the client's filter gives the next GET's list after the server deletes that row |

## Left out

- Rendering is not modelled: `renderTasks`, `escapeHtml`, `startEditTask`, `closeEditModal`, the empty-list message and `setupEventListeners`. These are DOM code. So the form's own trimming and its empty-title check before `addTask` are not modelled either. `editingTaskId` is an input of `App.AddTask`.
- `apiRequest`, `fetch` and `alert` are not modelled. A call's outcome is a parameter: the parsed answer, or None for a failure; for `deleteTask`, whose answer is not read, the flag `replyOk`.
- `confirm` in `deleteTask` is not modelled; its result is the `confirmed` parameter.
- Date parsing, time zones and the locale are not modelled:
  - `timeOf` stands for `Date` parsing and `today` for the clock;
  - the text from `toLocaleDateString` is the opaque label `LocaleDate`;
  - a DST day whose midnights are not a whole number of days apart is not modelled. `ClientView.FormatDueDate` and `ClientView.RegisterViewBadges` hold only in the model's whole-day arithmetic. After a night when the clocks go back, `Math.ceil` in `formatDueDate` gives 2 for tomorrow ("あと2日" instead of "明日"). It also gives 8 for a task due 7 days ahead, which the register window's `Math.round` still keeps, so such a task shows the plain date;
  - an invalid date (NaN) cannot arise, because `timeOf` always returns an integer.
- ClientView.PrioritySortOrder: requires every listed priority to be high, medium or low. For other values the source's comparator returns NaN, and the result depends on the engine. The requirement covers the whole cache, not only the tasks that survive the filters, so a cached task with priority "" (which a PUT answer can bring in, see `RowStore.UpdatedTaskMatchesListIff`) rules out the whole view even when a filter would drop it.
- ClientView.ViewSorted: requires known priorities under the priority sort, for the same reason, and likewise over the whole cache: `ClientView.FilteredAndSorted` and the other view lemmas carry the same requirement, while the source sorts only the filtered list.
- RowStore.DecodeRows: a missing cell reads as "". GET would send no `id` or `title` field for such a cell, and `content`, `category` and `priority` come out the same either way.
- RowStore.DecodeRows: cells are strings, so the source's `row[4] === true` branch cannot arise.
- SheetServer.Sheet.PutTask: a missing cell is "" here, where the source writes and echoes `undefined`.
- Request bodies are modelled with string fields only. A title or content of another JSON type is not modelled, and PUT's `completed` is reduced to its truthiness.
- Failures of the Sheets API inside a handler are not modelled. These are the 500 answers. The one failure that changes behaviour is modelled: a failed read in `getNextTaskId`, through `idReadOk` and the clock `nowMs`.
- The lookup of the tab's `sheetId` in DELETE is not modelled; the deletion acts on the modelled tab.
- `values.append` is modelled as adding after the last row. Sheets' table detection and its dropping of trailing empty cells are not modelled, beyond shorter rows being allowed.
- Concurrency is not modelled. Each request runs alone, from its read to its write. On the client, `addTask` reads `editingTaskId` again after the PUT returns (app.js:95). If the edit modal is closed while the PUT is under way, that id is null, so the cache is not updated although the server was. `ClientState.App.AddTask` reads the id once, before the call, and does not capture this.
- Express setup, CORS, static files, the SPA fallback, `initGoogleSheets` and `start` are left out, as wiring with no task logic.
- vite.config.js is not part of this model; it is build configuration.
