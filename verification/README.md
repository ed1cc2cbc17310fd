# Mission Control: the view logic of a task tracker, in Dafny

Mission Control is a personal productivity web application: tasks grouped in
projects, one "daily focus" per calendar day, and a personal wiki. Its pages
fetch rows from a hosted database and hand them to client components. Those
components derive what is shown, and that derivation is what this project models:

- **Dashboard** (`dashboard.dfy`). This covers the task statistics, today's focus and
  the "upcoming" list. The upcoming list holds the incomplete tasks, restricted to
  the selected project if there is one. They are stably sorted by priority
  (high, medium, low), then starred first, then earlier due date first with
  undated tasks last, and only the first five are kept.
- **Daily focus** (`focus.dfy`). This covers the calendar-day key of an ISO timestamp
  and the lookup of the focus for a day. It also covers the guards and payloads of
  the create, update and completion-toggle requests, and the page's completion
  statistics together with its fallback figures.
- **Wiki widget** (`wiki.dfy`). This covers the four-way entry filter, the set of
  expanded entries, and the local list patches applied after a save or a delete.
  It also covers the entry form's initial values and its tag and link editing.
- **String helpers** (`utils.dfy`). These are `slugify`, `truncate`, `capitalize`,
  `getInitials` and the two case-insensitive priority mappings.
- **Support modules**. `text.dfy` holds JavaScript white space, `trim`, ASCII case,
  `includes` and `split(" ")`. `stats.dfy` holds the `Math.round` percentage.
  `seqs.dfy` holds `filter`, `find` and counting, each with an order-aware contract.
  `optional.dfy` holds the option type that stands for `null`/`undefined`.

Everything is a pure function over immutable datatypes. The clock, the backend and
the browser are parameters:

- "now" and the selected day arrive as ISO-8601 timestamp strings;
- due dates arrive as their `getTime()` integers;
- a backend answer arrives as the stored row, or as None for a failed request;
- a confirmation dialog arrives as a boolean.

JavaScript's `Array.prototype.sort` is stable. For a consistent comparator this fixes
its result: the sorted arrangement that keeps tied tasks in input order. The model
sorts by insertion (`Dashboard.SortTasks`). `Dashboard.StableSortUnique` proves that
any sorted arrangement keeping ties in input order is the same sequence, so the model
does not depend on the engine's sorting algorithm.

Three behaviours of the code are worth stating plainly:

- The comparator's priority table knows only "high", "medium" and "low". For any
  other priority string it returns NaN, so the model's task priority is a
  three-valued enum (see "Left out").
- The wiki's visibility filter has three outcomes: "all" admits every entry,
  "public" admits public entries, and every other value admits private ones.
- The upcoming list is cut at a fixed five tasks (`slice(0, 5)`).

## Model

| member | source | states |
|---|---|---|
| Dashboard.CompareConsistent | app/dashboard/dashboard-client.tsx:40-59 | the comparator is consistent: swapping arguments flips its sign, it returns 0 exactly when priority, starred flag and due date all agree, any two tasks are ordered one way or the other, and "may precede" is transitive |
| Dashboard.Compare | app/dashboard/dashboard-client.tsx:40-59 | on different priorities the higher one goes first; on equal priority a starred task goes before an unstarred one; then the earlier due date goes first, and a dated task before an undated one; 0 exactly when priority, starred flag and due date all agree |
| Dashboard.SortTasks | app/dashboard/dashboard-client.tsx:38-59 | the sorted list is a permutation of its input, every task may precede every later one, and tasks that tie on all keys keep their input order |
| Dashboard.InsertWithKey | app/dashboard/dashboard-client.tsx:58 | inserting a task places it before the tasks it ties with and leaves the order of every tie group otherwise unchanged (stability of one insertion step) |
| Dashboard.InsertSorted | app/dashboard/dashboard-client.tsx:40-59 | inserting a task into a list in comparator order keeps it in comparator order |
| Dashboard.StableSortUnique | app/dashboard/dashboard-client.tsx:38-59 | two lists that are in comparator order and list each tie group in the same order are equal, so every stable sort gives the same result |
| Dashboard.ProjectTasks | app/dashboard/dashboard-client.tsx:36 | with no project selected, or an empty id, the list itself; otherwise a subsequence holding every task with that project id, as often as it occurs, and no other task |
| Dashboard.Candidates | app/dashboard/dashboard-client.tsx:36-39 | a subsequence of the tasks holding every incomplete task of the selected project, as often as it occurs, and no other task |
| Dashboard.Upcoming | app/dashboard/dashboard-client.tsx:38-60 | the upcoming list has min(5, candidates) tasks, each incomplete and in the selected project, drawn from the candidates without repetition beyond their multiplicity, in comparator order |
| Dashboard.UpcomingIsTopOfStableSort | app/dashboard/dashboard-client.tsx:38-60 | the upcoming list is the first five of any sorted arrangement of the candidates that keeps tied tasks in input order |
| Dashboard.UpcomingKeepsTiesInOrder | app/dashboard/dashboard-client.tsx:58-60 | among fully tied tasks, the upcoming list shows the earliest of the input, in input order |
| Dashboard.UpcomingOrder | app/dashboard/dashboard-client.tsx:42-56 | for any two positions: higher priority first; on equal priority the starred task first; then the earlier due date first, and an undated task never precedes a dated one |
| Dashboard.CompletedCount | app/dashboard/dashboard-client.tsx:28 | the number of positions holding a completed task |
| Dashboard.CompletionPercent | app/dashboard/dashboard-client.tsx:28-30 | 0 with no tasks; otherwise the integer nearest to 100 × completed / total, halves rounded up as `Math.round` does, and at most 100 |
| Dashboard.HighPriorityCount | app/dashboard/dashboard-client.tsx:32 | the number of positions holding a high-priority task that is not completed |
| Dashboard.TodaysFocus | app/dashboard/dashboard-client.tsx:34 | the first focus of the list dated on today's key: none exactly when no focus has that date, otherwise a focus with that date and no earlier focus with it |
| Focus.DateKey | app/focus/focus-client.tsx:56 | the key is a prefix of the timestamp, contains no "T", and is followed by "T" whenever it is shorter than the timestamp |
| Focus.DateKeyOfTimestamp | app/focus/focus-client.tsx:65 | the key of "day T time" is the day, whatever the time |
| Focus.DateKeyIdempotent | app/focus/focus-client.tsx:56 | the key of a key is itself |
| Focus.IsToday | app/focus/focus-client.tsx:57 | when it holds, the shared day key is a prefix of both timestamps; two plain dates without a time part are the same day exactly when they are equal |
| Focus.IsTodayIgnoresTime | app/focus/focus-client.tsx:57 | two timestamps are on the same day exactly when their day parts are equal, whatever their times |
| Focus.FocusForDate | app/focus/focus-client.tsx:137 | the result is the first focus with that date, or none exactly when no focus has it |
| Focus.FocusForDateUnique | app/focus/focus-client.tsx:137 | when a day has a single focus, the lookup returns that focus |
| Focus.SelectedFocus | app/focus/focus-client.tsx:137 | the first focus of the recent list dated on the selected day's key: none exactly when there is none, otherwise a focus with that date and no earlier focus with it |
| Focus.InitialForm | app/focus/focus-client.tsx:51-54 | the form starts empty without a focus for today, otherwise with its title and its description (empty when null) |
| Focus.DescriptionOrNull | app/focus/focus-client.tsx:71 | null exactly when the description is all white space, otherwise its trimmed non-empty text |
| Focus.CreateFocus | app/focus/focus-client.tsx:59-73 | no insert exactly when the title is blank; otherwise the trimmed title, the trimmed description or null, not completed, dated on the selected day, for the given user |
| Focus.UpdateFocus | app/focus/focus-client.tsx:87-100 | no update exactly when the title is blank or there is no focus for today; otherwise today's focus id with the trimmed title and description-or-null, stamped now |
| Focus.ToggleComplete | app/focus/focus-client.tsx:113-125 | without a focus nothing is sent; otherwise `completed` is negated, `completed_at` is set exactly when the new value is true, to the first clock reading, and `updated_at` is the second clock reading, which may differ |
| Focus.ToggleTwice | app/focus/focus-client.tsx:120-123 | after a toggle the row carries a completion time exactly when completed; two toggles restore the completed flag and leave title, description, date and id alone |
| Focus.FocusStats | app/focus/page.tsx:46-57 | completed never exceeds total; both count the fetched rows (0 without data); the percentage is 0 without rows, otherwise `Math.round(100 × completed / total)`, within [0, 100] |
| Focus.FallbackAgreesWithFormula | app/focus/page.tsx:84-107 | the fallback figures (1 completed, 2 in total, 50%) are what the formula gives on the fallback's own two sample focuses |
| Stats.RoundedPercent | app/focus/page.tsx:57 | 0 for a zero total; otherwise r satisfies r ≤ 100·part/total + 1/2 < r + 1; at most 100 when part ≤ total |
| Stats.PercentMonotone | app/focus/page.tsx:57 | one more completed row never lowers the percentage |
| Stats.PercentEnds | app/focus/page.tsx:57 | everything completed reads 100, nothing completed reads 0 |
| Wiki.Passes | components/wiki-widget.tsx:65-74 | the early-return filter callback holds exactly when each filter that is set is met: category and status equal, visibility public or private, and some tag containing the filter text ignoring case |
| Wiki.FilterEntries | components/wiki-widget.tsx:65-74 | the shown entries are a subsequence of the entries, and an entry is shown, as often as it occurs, exactly when every filter admits it |
| Wiki.NoFiltersShowEverything | components/wiki-widget.tsx:66-73 | with all filters on "all" and no tag, the whole list is shown |
| Wiki.InitialFiltersShowGeneralDrafts | components/wiki-widget.tsx:55-60 | with the initial filters, exactly the entries of category "general" and status "draft" are shown |
| Wiki.ToggleExpanded | components/wiki-widget.tsx:76-84 | the id changes membership and every other id keeps its membership |
| Wiki.ToggleExpandedTwice | components/wiki-widget.tsx:76-84 | toggling the same id twice restores the set |
| Wiki.InitialState | components/wiki-widget.tsx:50-60 | the widget mounts with the given entries, nothing expanded, edited or being created, and shows exactly the entries of category "general" and status "draft" |
| Wiki.StartEditing | components/wiki-widget.tsx:86-89 | the entry becomes the edited one and is added to the expanded set, which otherwise keeps its members; the list does not change |
| Wiki.CancelEditing | components/wiki-widget.tsx:91-94 | nothing is edited or being created afterwards; list and expanded set are unchanged |
| Wiki.ReplaceById | components/wiki-widget.tsx:104 | same length; each entry with the id becomes the stored row, every other entry stays in place |
| Wiki.RemoveById | components/wiki-widget.tsx:138 | the remaining entries are a subsequence; an entry remains exactly when its id differs, with its multiplicity |
| Wiki.SaveEntry | components/wiki-widget.tsx:96-128 | a failed save changes nothing; an edit replaces exactly the entries with its id and keeps length and order; a creation puts the stored row first and ends creating; a successful save ends editing |
| Wiki.DeleteEntry | components/wiki-widget.tsx:130-147 | cancelled or failed, nothing changes; otherwise entries with the id and the id in the expanded set are gone, every entry with another id keeps its multiplicity and order, and the editing state is unchanged |
| Wiki.DeleteAfterUpdate | components/wiki-widget.tsx:138 | deleting an entry after saving it under its id leaves what deleting it beforehand would have left |
| Wiki.DeleteAfterCreate | components/wiki-widget.tsx:120 | deleting a just-created entry with a fresh id gives back the list from before the creation |
| Wiki.OrDefault | components/wiki-widget.tsx:400-405 | `value || default` on strings: a non-empty value is kept, the empty string gives the default, and the result is empty only when both are |
| Wiki.InitialForm | components/wiki-widget.tsx:399-411 | for a new entry: empty title, summary and content, category "general", status "draft", priority "medium", private, unrated, no tags, links or files; for an edited entry each field is its own, except that an empty category, status or priority gives the default and a rating of 0 gives none |
| Wiki.InitialFormFaithful | components/wiki-widget.tsx:399-411 | the form shows an entry's fields unchanged exactly when its category, status and priority are non-empty and its rating is not 0 |
| Wiki.Submit | components/wiki-widget.tsx:416-422 | the draft carries the form's fields, and the entry's id exactly when an entry is being edited |
| Wiki.AddTag | components/wiki-widget.tsx:424-432 | the trimmed tag is appended and the input cleared exactly when it is non-empty and new, otherwise nothing changes; nothing but the tags changes; a duplicate-free tag list stays duplicate-free |
| Wiki.RemoveTag | components/wiki-widget.tsx:434-439 | the value no longer occurs, every other tag keeps its multiplicity and order, and nothing else changes |
| Wiki.RemoveAddedTag | components/wiki-widget.tsx:424-439 | removing a tag just added gives back the previous tags |
| Wiki.AddLink | components/wiki-widget.tsx:441-449 | the trimmed link is appended and the input cleared exactly when it is non-empty, otherwise nothing changes; nothing but the links changes |
| Wiki.RemoveAt | components/wiki-widget.tsx:454 | for an index in range the result is the list without that position; otherwise the list itself |
| Wiki.RemoveLink | components/wiki-widget.tsx:451-456 | exactly position i goes, the links before it stay and the ones after shift down by one; an index out of range removes nothing |
| Wiki.RemoveAddedLink | components/wiki-widget.tsx:441-456 | removing the link at the position just appended gives back the previous links |
| Utils.DropWhile | lib/utils.ts:55 | the result is a suffix of the string, every removed character passes the test, and the result does not start with one that does |
| Utils.DropWhileEnd | lib/utils.ts:56 | the result is a prefix of the string, every removed character passes the test, and the result does not end with one that does |
| Utils.DropWhileKeeps | lib/utils.ts:55 | stripping leading characters keeps every character the stripping test never matches, in order and as often as it occurs |
| Utils.DropWhileEndKeeps | lib/utils.ts:56 | stripping trailing characters keeps every character the stripping test never matches, in order and as often as it occurs |
| Utils.CollapseRuns | lib/utils.ts:52-54 | a string with no character of the class is unchanged; the first character becomes a dash if it is in the class and stays otherwise; every output character is a dash or an input character outside the class; no dash is followed by a character of the class |
| Utils.CollapseRunsOfRun | lib/utils.ts:52-54 | a non-empty run of the class becomes a single dash |
| Utils.CollapseRunsAppend | lib/utils.ts:52-54 | replacing runs distributes over a concatenation that does not split a run; with the run case and the unchanged case this fixes the result on every string |
| Utils.CollapseRunsKeeps | lib/utils.ts:52-54 | the characters outside the class that are not dashes keep their order and number |
| Utils.DashSpaces | lib/utils.ts:52 | no white space is left; a string without white space is unchanged; an all-white-space string becomes one dash; the characters that are neither white space nor dashes keep their order and number; a string without upper-case letters yields none |
| Utils.KeepWordAndDash | lib/utils.ts:53 | only word characters and dashes remain, each as often as in the input and in input order; on a string without upper-case letters only slug characters remain |
| Utils.CollapseDashes | lib/utils.ts:54 | no two dashes in a row afterwards; the characters other than dashes keep their order and number; the first character is kept; slug characters stay slug characters |
| Utils.CollapseDashesFixpoint | lib/utils.ts:54 | a string without double dashes is unchanged |
| Utils.TrimLeadingDashes | lib/utils.ts:55 | the result is a suffix of the string, only dashes are removed, and it does not start with a dash |
| Utils.TrimTrailingDashes | lib/utils.ts:56 | the result is a prefix of the string, only dashes are removed, and it does not end with a dash |
| Utils.Slugify | lib/utils.ts:48-57 | the slug holds only lower-case ASCII letters, digits, "_" and "-", never two dashes in a row and no dash at either end; its word characters are exactly those of the lower-cased text, in order; it is empty exactly when the text has no word character; SlugifyJoin fixes where the dash between words goes |
| Utils.SlugifyKeepsWords | lib/utils.ts:51-56 | each replacement step keeps the word characters of the lower-cased text, in order and as often as they occur |
| Utils.SlugEmptyIffNoWords | lib/utils.ts:48-57 | a slug is empty exactly when it has no word character |
| Utils.LowerNoWords | lib/utils.ts:51 | the lower-cased text has no word character exactly when the text has none |
| Utils.SlugFixpoint | lib/utils.ts:48-57 | a string that already has the slug shape is its own slug |
| Utils.SlugifyIdempotent | lib/utils.ts:48-57 | slugifying a slug gives it back |
| Utils.SlugifyJoin | lib/utils.ts:48-57 | two non-empty slugs separated by any non-empty run of white space slugify to the two slugs joined by one dash |
| Utils.DashSpacesJoin | lib/utils.ts:52 | on two slugs around a run of white space, the white-space step puts exactly one dash between them and changes nothing else |
| Utils.CollapseRunsAround | lib/utils.ts:52-54 | a non-empty run of the class between two strings free of it becomes one dash between them |
| Utils.JoinIsSlug | lib/utils.ts:52-56 | two non-empty slugs joined by a dash are a slug, so the later steps leave the join alone |
| Utils.Truncate | lib/utils.ts:59-62 | a text no longer than the length comes back unchanged; otherwise a prefix of it followed by "...", length + 3 long for a non-negative length |
| Utils.TruncateTwice | lib/utils.ts:59-62 | truncating a truncated text again to the same length gives it back |
| Utils.Capitalize | lib/utils.ts:64-66 | same length; the first character upper-cased, the rest unchanged; the empty string maps to itself |
| Utils.CapitalizeIdempotent | lib/utils.ts:64-66 | capitalizing twice is capitalizing once |
| Utils.SplitFirstChars | lib/utils.ts:35-39 | the first characters of the pieces of `split(" ")` are exactly the characters that start a word: not a space, and first or right after a space |
| Utils.Initials | lib/utils.ts:35-42 | at most two characters, none lower-case, the upper-cased first characters of the first two words in order, empty pieces contributing nothing |
| Utils.LevelOf | lib/utils.ts:68-92 | the lower-cased priority is classified as high, medium or low exactly when it equals that word up to ASCII letter case |
| Utils.PriorityColor | lib/utils.ts:68-79 | red exactly for "high", yellow for "medium", green for "low" in any letter case, gray for everything else |
| Utils.PriorityBadgeVariant | lib/utils.ts:81-92 | destructive exactly for "high", default for "medium", secondary for "low" in any letter case, outline for everything else |
| Utils.PriorityMappingsIgnoreCase | lib/utils.ts:68-92 | two priorities that differ only in letter case get the same color and the same badge variant |
| Text.Lower | lib/utils.ts:51 | same length; each ASCII upper-case letter becomes its lower-case letter and every other character is unchanged |
| Text.Upper | lib/utils.ts:40 | same length; each ASCII lower-case letter becomes its upper-case letter and every other character is unchanged |
| Text.Trim | app/focus/focus-client.tsx:61 | the result is the infix of the input between leading and trailing white space, starts and ends with non-space, and is empty exactly when the input is all white space |
| Text.TrimIdempotent | components/wiki-widget.tsx:425 | trimming twice is trimming once |
| Text.Contains | components/wiki-widget.tsx:72 | `includes` holds exactly when the pattern occurs at some position |
| Text.SplitSpaces | lib/utils.ts:37 | `split(" ")` gives at least one piece and no piece contains a space |
| Text.JoinSplit | lib/utils.ts:37 | joining the pieces of `split(" ")` with spaces gives back the string |
| Seqs.Filter | components/wiki-widget.tsx:65 | the kept elements are a subsequence, an element is kept exactly when it satisfies the test, with its multiplicity |
| Seqs.Count | app/dashboard/dashboard-client.tsx:28 | the count is the number of positions whose element satisfies the test |
| Seqs.CountIsFilterLength | app/dashboard/dashboard-client.tsx:32 | the count equals the length of the filtered sequence |
| Seqs.Find | app/dashboard/dashboard-client.tsx:34 | `find` returns the first element satisfying the test, or none exactly when no element does |
| Seqs.Take | app/dashboard/dashboard-client.tsx:60 | `slice(0, n)`: min(n, length) elements, a prefix of the sequence, so no element occurs more often than in it |

## Left out

- Fetching, authentication, redirects, `router.refresh()`, the loading, editing and creating flags of the focus page, error logging, and the fallback to sample data on a failed fetch. These are I/O and rendering. The backend's answer is a parameter wherever the widget patches local state.
- The clock. `new Date().toISOString()` is replaced by timestamp parameters, one per reading: ToggleComplete reads the clock twice and takes two. The model does not capture that `toISOString` is UTC, so "today" is the UTC day.
- Due dates are the integers `getTime()` would return. Invalid dates, which give NaN, are not modelled. An empty due-date string is falsy and is modelled as no due date.
- Dashboard.Compare: priorities outside high, medium and low are not modelled, because the source's comparator returns NaN for them and the sort is then unspecified.
- Floating point. `(c / t) * 100` is computed exactly. Binary rounding error at exact .5 boundaries is ignored.
- Text.Lower, Text.Upper: only ASCII letters change case. The source's Unicode case mapping, such as "ß" becoming "SS", is not modelled.
- Strings are sequences of Unicode scalar values, not UTF-16 code units. A character outside the Basic Multilingual Plane, such as an emoji, is one character here but two code units in JavaScript, so `length`, `slice` and `n[0]` are modelled over code points and differ from the source on such text.
- Utils.Truncate: the length is an integer. A fractional length is not modelled.
- `starredTodos` (app/dashboard/dashboard-client.tsx:33) is computed and never used.
- The dashboard's own `getPriorityColor` and `formatDate`, the wiki's `renderStars` and `formatDate`, and all markup are left out as rendering.
- `generateId` uses `Math.random`. `formatDate`, `formatTime` and `formatDateTime` use `Intl` locale formatting. `cn` wraps two styling libraries. None of them is modelled.
- Changing a filter in the wiki widget is a single field assignment. The filter record is a parameter of `Wiki.FilterEntries` instead.
- The once-per-day uniqueness of focuses is not enforced. As in the source, the lookup takes the first match. `Focus.FocusForDateUnique` states what happens when the invariant holds.
