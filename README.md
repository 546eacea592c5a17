# csconfs dashboard: a verified model of its data logic

csconfs is a React page that lists computer-science conference deadlines.
It loads conference instances from a YAML list and a taxonomy from CSV rows
(conference title, area code, area title, parent area, and optionally
next-tier flag, year and note). From these it builds:

- the sidebar tree: parent area, then area, then conference, with tri-state checkboxes;
- a selection of conference names;
- a search box;
- a card list sorted with upcoming deadlines first;
- on each card, a live countdown.

This project models the logic under the rendering and proves what it
guarantees:

| file | module | models |
|---|---|---|
| `js.dfy` | `Js` | the JavaScript semantics the code relies on: `undefined`, truthiness, property keys, insertion-ordered plain objects, ASCII `toLowerCase`, `String.includes` |
| `seqs.dfy` | `Seqs` | lists without repetitions; first-occurrence de-duplication, which is what an add-only `Set` read back with `Array.from` holds |
| `grouping.dfy` | `Grouping` | the "file each row under its key, skip entries whose key is already listed" fold both loaders use. It has a step-by-step form that the loops follow and a declarative form. |
| `taxonomy.dfy` | `Taxonomy` | taxonomy rows and the area-title → conference-titles index shared by both loaders, with its copy to arrays and its concatenation |
| `app_index.dfy` | `AppIndex` | the CSV `complete` callback of `src/App.js` (areas under parent areas, "Other" default) |
| `fetch_conferences.dfy` | `FetchConferences` | the `parseCSV` callback of `src/components/FetchConferences.js`. Entries are keyed on title, year and note; the parent area is taken verbatim; `nextTierFlags` follows the last row; `flatMap` keeps duplicates. |
| `conferences.dfy` | `Conferences` | a loaded conference and its date fields, each one missing, unparseable, or a time in ms |
| `conference_card.dfy` | `ConferenceCard` | `calculateCountdown` and the `'TBD'` fallbacks of the card |
| `pipeline.dfy` | `Pipeline` | `filterConferences`: the filter predicate, the comparator, and the stable sort it amounts to |
| `dashboard.dfy` | `App` | the `App` component's state as the class `Dashboard`, its selection handlers, and the sidebar queries |

The code that loops is written as methods with loop invariants:

- the row-folding loops;
- the copy into `finalConferencesByArea`;
- the collection of all names;
- `getConferencesByParentArea`;
- `toggleMultipleConferences`.

Each method is proved equal to a function of its inputs. The lemmas state the
source's promises about those functions. Expression code is written as
functions: the selection queries, the filter, the comparator and the countdown.

## Model

| member | source | states |
|---|---|---|
| Js.Dict.Put | src/App.js:109 | Assigning `obj[k] = v` stores `v` under `k` and leaves every other key and its value alone. The key order gains `k` at the end when it is new and is unchanged otherwise. A well-formed dictionary stays well-formed. |
| Js.Lower | src/App.js:153 | `toLowerCase` keeps the length and lowers each ASCII capital at its position |
| Js.LowerIdempotent | src/App.js:153 | lowering twice is lowering once |
| Js.IncludesIff | src/App.js:153 | `s.includes(needle)` is true exactly when the needle occurs at some position of `s` |
| Grouping.GroupStep | src/App.js:104-124 | filing one more row into the grouping of the earlier rows gives the grouping of all of them |
| Grouping.FoldIsGroup | src/App.js:104-124 | the state after the row loop is the declarative grouping: keys in first-seen order, each list the first entry per key |
| Grouping.GroupKeys | src/App.js:108-110 | the grouping is a well-formed dictionary whose keys are exactly the keys some row is filed under |
| Grouping.GroupDistinct | src/App.js:112 | no list holds two entries with the same key |
| Grouping.EveryRowFiled | src/App.js:112-117 | every row's list holds an entry with the key of that row's entry |
| Grouping.FirstRowKept | src/App.js:112-117 | each stored entry comes from the first row filed under that key with that entry key; later rows never replace it |
| Grouping.EntriesUnderIff | src/App.js:104-117 | an entry is offered to a list iff some row filed under that key carries it |
| Seqs.DedupSpec | src/App.js:120-123 | a Set built by `add` holds no value twice and exactly the values added |
| Seqs.DedupOnOrder | src/App.js:120-123 | kept values are in the order their keys first occur |
| Taxonomy.AddConference | src/App.js:119-123 | one iteration creates the area's Set if missing and adds the title: it is the `File` step of the grouping keyed by area title |
| Taxonomy.ConferencesInSpec | src/App.js:119-128 | an area's list holds no title twice and exactly the titles of the rows with that area key, in first-encounter order |
| Taxonomy.ConferencesByAreaSpec | src/App.js:119-128 | the index is a well-formed dictionary keyed by exactly the rows' area keys, and every row's title is in its area's list |
| Taxonomy.CopyToArrays | src/App.js:126-129 | the loop over `Object.keys` builds a dictionary equal to the one it copies: the same keys, order and lists |
| Taxonomy.CollectNames | src/App.js:135-136 | pushing each Set's contents in key order yields the concatenation of the lists |
| Taxonomy.FlattenKeysIff | src/App.js:136 | a title is in the concatenation iff some key's list holds it |
| Taxonomy.AllTitles | src/App.js:135-137 | the collected names are exactly the conference titles of the rows |
| Taxonomy.FlattenCounts | src/components/FetchConferences.js:50 | with duplicate-free lists, a title occurs in the concatenation once per area listing it, and its length is the sum of the list lengths |
| AppIndex.ParentOf | src/App.js:106 | the parent area with its "Other" default is never the empty key, and is "Other" exactly when `ParentArea` is missing, empty or literally "Other" |
| AppIndex.AddArea | src/App.js:105-117 | one iteration files the row's `{area, area_title}` under `ParentArea` or "Other", unless that title is already listed there |
| AppIndex.BuildIndex | src/App.js:101-137 | the callback's loop builds exactly `AreasMap(rows)` and `ConferencesByArea(rows)`; the names it collects are the concatenation of the lists, which holds exactly the rows' titles |
| AppIndex.AreasMapKeys | src/App.js:106-110 | the parent areas are exactly the rows' truthy `ParentArea` values, plus "Other" for a missing or empty one |
| AppIndex.AreaTitlesDistinct | src/App.js:112 | within one parent area no two entries share `area_title` |
| AppIndex.EveryAreaFiled | src/App.js:106-117 | every row's area title is listed under its parent area, or under "Other" when `ParentArea` is missing or empty |
| AppIndex.AreaCodeFromFirstRow | src/App.js:112-117 | the stored `area` code is that of the first row with that title under that parent area |
| FetchConferences.TierFlag | src/components/FetchConferences.js:21 | The flag is `true` iff `NextTier` is present and lowercases to "true". It is a boolean exactly when `NextTier` is truthy. Otherwise the falsy value itself is stored: `undefined` for a missing `NextTier`, "" for an empty one. |
| FetchConferences.NextTierFlags | src/components/FetchConferences.js:20-22 | after the loop at most one key per row is flagged, and the final row's name carries that row's flag |
| FetchConferences.AddYearArea | src/components/FetchConferences.js:24-34 | one iteration files `{area, area_title, year, note}` under the verbatim parent area unless an entry with the same title, year and note is there |
| FetchConferences.ParseCsv | src/components/FetchConferences.js:11-52 | the callback builds exactly the three maps and the `flatMap` concatenation of the area lists |
| FetchConferences.EditionsDistinct | src/components/FetchConferences.js:27 | within a parent area no two entries share title, year and note |
| FetchConferences.EveryEditionFiled | src/components/FetchConferences.js:24-34 | every row has an entry with its own title, year and note under its own parent area, so rows differing only in year or note stay separate |
| FetchConferences.ParentAreasVerbatim | src/components/FetchConferences.js:18-26 | the parent areas are the rows' `ParentArea` property keys with no default: a missing one is filed under "undefined", an empty one under "" |
| FetchConferences.EditionFromFirstRow | src/components/FetchConferences.js:27-34 | the kept `area` code for an edition is that of its first row |
| FetchConferences.FlaggedNames | src/components/FetchConferences.js:20-22 | `nextTierFlags` has one key per conference name, in first-seen order |
| FetchConferences.LastRowWins | src/components/FetchConferences.js:20-22 | the flag stored for a name is computed from the last row with that name |
| FetchConferences.NextTierIff | src/components/FetchConferences.js:21-22 | A name's flag is `true` iff its last row's `NextTier` lowercases to "true". A missing `NextTier` leaves `undefined` and an empty one leaves "". |
| FetchConferences.AllNamesCounts | src/components/FetchConferences.js:50 | `allConferenceNames` repeats a title once per area listing it; its length is the sum of the list lengths |
| ConferenceCard.Decimal | src/components/ConferenceCard.js:31 | `String(n)` for a whole number is a non-empty digit string, one digit below 10 and two below 100 |
| ConferenceCard.PadStart | src/components/ConferenceCard.js:31 | `padStart(n, '0')` reaches length `n` with leading fill and keeps the whole string at its end, never truncating |
| ConferenceCard.CalculateCountdown | src/components/ConferenceCard.js:16-32 | the result is "" exactly for a missing or unparseable deadline, and "Deadline passed" exactly when the difference is ≤ 0 |
| ConferenceCard.Split | src/components/ConferenceCard.js:23-26 | hours below 24, minutes and seconds below 60, and zero days only for a difference under one day |
| ConferenceCard.SplitExact | src/components/ConferenceCard.js:23-26 | hours < 24, minutes < 60, seconds < 60, and the fields add up to the difference rounded down to a whole second |
| ConferenceCard.Field | src/components/ConferenceCard.js:31 | `String(n).padStart(2, '0')` is all digits, two of them below 10 and the whole of `String(n)` from 10 on |
| ConferenceCard.Format | src/components/ConferenceCard.js:31 | the template is the day field plus a fixed 13-character tail when the other fields are below 100, and it ends in `s` |
| ConferenceCard.DecimalValue | src/components/ConferenceCard.js:31 | the digits of `String(n)` denote `n` |
| ConferenceCard.FieldValue | src/components/ConferenceCard.js:31 | a zero-padded field is all digits and denotes its number |
| ConferenceCard.FormatParse | src/components/ConferenceCard.js:31 | reading the `DDd HHh MMm SSs` text back gives the fields, for hours, minutes and seconds below 100 |
| ConferenceCard.CountdownRoundTrip | src/components/ConferenceCard.js:20-31 | the countdown of an upcoming deadline reads back as exactly the split of the difference |
| ConferenceCard.DaysNeverTruncated | src/components/ConferenceCard.js:23-31 | the text before the fixed 13-character tail is the whole day count, padded to two digits and never cut |
| ConferenceCard.OneOfEach | src/components/ConferenceCard.js:31 | 90061 seconds ahead shows "01d 01h 01m 01s" |
| ConferenceCard.CountdownShown | src/components/ConferenceCard.js:113 | the card's countdown slot shows 'TBD' exactly for an empty countdown (or the text "TBD") and any other countdown as it is |
| ConferenceCard.DateShown | src/components/ConferenceCard.js:45-54 | a date shows 'TBD' exactly when the field is falsy or the host formats it as "TBD", and "Invalid Date" for an unparseable one |
| ConferenceCard.CountdownFallback | src/components/ConferenceCard.js:113 | the card shows 'TBD' exactly when the deadline is missing or unparseable, and "Deadline passed" for a passed one |
| ConferenceCard.DateFallback | src/components/ConferenceCard.js:45-54 | a date shows 'TBD' exactly when the field is missing (falsy) |
| Pipeline.Matches | src/App.js:151-155 | a kept conference is always a selected one, and an empty search keeps exactly the selected ones |
| Pipeline.Filter | src/App.js:151-155 | `filter` never lengthens the list and keeps only conferences of the list that match |
| Pipeline.FilterAppend | src/App.js:151-155 | filtering a concatenation filters each part, so kept instances keep their relative order |
| Pipeline.FilterCount | src/App.js:151-155 | an instance is kept, as often as it occurs, iff its name is selected and it matches the search |
| Pipeline.MatchesIff | src/App.js:152-154 | the filter is true iff the name is selected and the lowered query occurs in the lowered name; lowering the query first changes nothing |
| Pipeline.Cmp | src/App.js:157-170 | The comparator as written is negative exactly when `a` is upcoming and `b` is passed, invalid or later. It is zero exactly for two upcoming deadlines at the same instant or two valid passed ones. |
| Pipeline.KeyLeTotalPreorder | src/App.js:157-170 | the deadline key order is total and transitive |
| Pipeline.CmpAgrees | src/App.js:157-170 | on valid deadlines the comparator is antisymmetric: negative exactly when the key order puts `a` strictly first, ≤ 0 exactly when the key order allows `a` first |
| Pipeline.CmpInconsistent | src/App.js:161-169 | with a missing or unparseable deadline on one side and a non-upcoming one on the other, the comparator returns 1 both ways |
| Pipeline.SortByDeadline | src/App.js:157-170 | the stable sort by the deadline key keeps the length of the list; its order is stated by the three lemmas below |
| Pipeline.SortPermutes | src/App.js:157-170 | sorting yields a permutation of the filtered list |
| Pipeline.SortOrders | src/App.js:157-170 | after sorting every upcoming instance precedes every other, and upcoming instances are in ascending deadline order |
| Pipeline.SortStable | src/App.js:157-170 | instances with equal keys, in particular all non-upcoming ones, keep their original relative order |
| Pipeline.SortedByCmp | src/App.js:157-170 | when every deadline is valid, each earlier instance compares ≤ 0 with each later one under the source's comparator |
| Pipeline.FilterConferences | src/App.js:149-173 | the stored list is no longer than the loaded one and holds only loaded conferences that match |
| Pipeline.ShownConferences | src/App.js:149-173 | The stored list holds each matching conference exactly as often as the loaded list does, and nothing else. It is sorted by the key, with upcoming deadlines first in ascending order. |
| App.GetConferencesByAreaTitle | src/App.js:61-63 | an `undefined` area title looks up the key "undefined"; an unknown title gives `[]`, a known one its list |
| App.GetConferencesByParentArea | src/App.js:51-58 | the loop concatenates, area by area, the conference lists of the areas under the parent area (`[]` for an unknown one) |
| App.ConferencesOfAreasIff | src/App.js:54-56 | a title is in the concatenation iff one of the areas lists it |
| App.AreaTitleConferences | src/App.js:61-63 | on the built index, an area title's list holds exactly the titles of the rows with that area key, each once |
| App.ParentAreaConferences | src/App.js:51-58 | On the built index, a parent area's conferences are the titles of all rows whose area key matches an area met under that parent. This includes rows filed under another parent. |
| App.Every | src/App.js:67 | `every` is true iff all elements are selected |
| App.Any | src/App.js:72 | `some` is true iff some element is selected |
| App.IsAllSelected | src/App.js:66-68 | true iff the list is non-empty and all its names are selected |
| App.IsSomeSelected | src/App.js:71-73 | true iff at least one name is selected and at least one is not |
| App.TriState | src/App.js:66-73 | a non-empty list is in exactly one of checked, indeterminate or clear; an empty list is neither checked nor indeterminate |
| App.Toggled | src/App.js:76-83 | after a toggle a name is selected iff it is in the list and `select` holds, or it is outside the list and was selected |
| App.Flipped | src/App.js:180-188 | after a click the clicked name is selected iff it was not before, and every other name keeps its state |
| App.ToggleEffect | src/App.js:76-83 | Selecting a list checks its box iff it is non-empty. Deselecting leaves none of it selected. Neither leaves the box indeterminate, and names outside the list keep their state. |
| App.ToggleTwice | src/App.js:76-83 | toggling twice the same way is toggling once; deselecting after selecting equals deselecting |
| App.FlipEffect | src/App.js:180-188 | a checkbox click flips that name only, and clicking twice restores the selection |
| App.Dashboard.constructor | src/App.js:31-37 | the initial state: empty lists, empty dictionaries, empty selection, empty query, loading |
| App.Dashboard.Complete | src/App.js:100-139 | Stores the index built from the rows and shows the loaded list unfiltered. Stops loading. Selects exactly the rows' conference titles. |
| App.Dashboard.ToggleMultipleConferences | src/App.js:76-83 | the loop over the list leaves the selection equal to `Toggled(old selection, list, select)` and changes nothing else |
| App.Dashboard.HandleCheckboxChange | src/App.js:180-188 | the selection becomes `Flipped(old selection, name)`; nothing else changes |
| App.Dashboard.HandleSearchChange | src/App.js:190-192 | the query becomes the field's value; nothing else changes |
| App.Dashboard.FilterConferences | src/App.js:149-173 | the displayed list becomes the stable deadline sort of the filtered conferences; nothing else changes |

## Left out

- Network and parsing: `fetch`, `yaml.load` and `Papa.parse` are I/O or foreign libraries.
  - The parsed CSV rows and the loaded conference list are parameters.
  - A missing CSV column is `None`.
  - `fetchFullData` and the `error` path of `parseCSV` are not modelled.
- React: hooks, effects and the one-second `setInterval` refresh of the countdown are UI reactivity.
  - A state setter is a field assignment.
  - Re-running `filterConferences` after a state change is an explicit call to `App.Dashboard.FilterConferences`.
- JSX rendering, styling and colours, and the `toggleParent` / `toggleArea` expand flags, are pure presentation.
- Date parsing and `toLocaleDateString`: they depend on the host and locale.
  - A date field records the outcome of `new Date(field)`: missing, unparseable, or a time in milliseconds.
  - The formatted text of a valid date is a parameter `format` of `ConferenceCard.DateShown`.
- Clock: `new Date()` is one fixed reading `now`. The source reads the clock again in every comparator call.
- ConferenceCard.Split: computes on whole milliseconds with integer `/` and `%`.
  - The source applies `Math.floor` to real quotients and remainders.
  - For a non-negative difference of whole milliseconds the two agree, but the floating-point side is not modelled.
  - Neither is `String`'s exponent form for numbers of 10^21 and beyond, which valid dates never reach.
- Js.Lower: ASCII letters only; the rest of Unicode case mapping is not modelled.
- Js.Dict: keys follow insertion order.
  - JavaScript lists integer-like keys (such as an area title "2024") first, in numeric order. That is not modelled.
  - Inherited keys such as "constructor" are not modelled either.
- Conferences.DateField: `Missing` stands for an `undefined` or empty field, both falsy and both NaN under `new Date`. A YAML `null` (a key with no value) is not modelled. It is falsy, so the card shows 'TBD' and the countdown is empty, but `new Date(null)` is the valid time 0, so the source's comparator orders it consistently as passed. On such an instance `Pipeline.Cmp` and `Pipeline.CmpInconsistent` do not describe the source. `Pipeline.SortByDeadline` places it with the passed ones, as the source does.
- Pipeline.Matches: assumes every loaded conference has a string `name`. The source throws a TypeError on one without.

## Findings

| source | as written | input that shows it | evidently intended | confidence | as-written member | corrected member |
|---|---|---|---|---|---|---|
| src/App.js:161-169 | `new Date(x)` is NaN for an undefined, empty or unparseable deadline, so both `> now` and `<= now` are false and the comparator returns 1. It does so for `(a, b)` and for `(b, a)`. The comparator is then inconsistent, and `Array.prototype.sort` may return any order. | `a.deadline` undefined, `b.deadline` "TBD" (or any passed date) | such conferences are ordered like passed ones: equal to them and after every upcoming one, with the stable sort keeping their order | medium; not executed | Pipeline.CmpInconsistent | Pipeline.SortByDeadline |

`Pipeline.Cmp` is the comparator as written. `Pipeline.CmpInconsistent` shows the double 1.

`Pipeline.SortByDeadline` is the corrected order, and `App.Dashboard.FilterConferences` uses it. Its properties are proved:

- `Pipeline.SortPermutes`: the result is a permutation of the input.
- `Pipeline.SortOrders`: upcoming instances come first, in ascending deadline order.
- `Pipeline.SortStable`: instances with equal keys keep their relative order.
- `Pipeline.KeyLeTotalPreorder`: the key order is total and transitive.

On valid deadlines this sort agrees with the source's comparator (`Pipeline.CmpAgrees`, `Pipeline.SortedByCmp`).
