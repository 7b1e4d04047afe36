# Content view of the scraper dashboard, modelled in Dafny

The dashboard's content page reads rows of the `scraped_content` table, turns
each row (every column of which may be null) into a display record, and hands
the records to a client-side table. The table builds the sorted list of
distinct tags, filters the records by free-text search, selected tags and a
date range, and keeps four pieces of filter state that its controls update.
This project models those two pieces of logic and proves what they promise.

Modules, one per concern:

- `Wrappers` (`wrappers.dfy`): `Option`, used for every nullable column and
  for JavaScript values that may be `null` or `NaN`.
- `Seqs` (`seqs.dfy`): `Array.prototype.filter` (`Filter`), a map whose
  callback may throw (`MapOrThrow`), and a recursive definition of
  subsequence.
- `Text` (`text.dfy`): the JavaScript string operations the code relies on:
  `trim` (with the ECMAScript white-space set), `toLowerCase`,
  `split(",")`, `join`, `includes`, and the comparison used by `sort`.
- `Dates` (`dates.dfy`): dates as integer millisecond time values, with a
  `Clock` that supplies parsing and formatting, and the end-of-day bound
  that `setHours(23, 59, 59, 999)` computes.
- `Records` (`records.dfy`): the row and record types and
  `transformRowToRecord` from `app/content/page.tsx`, plus the
  `rows.map(...)` step of `loadScrapedContent`.
- `ContentFilter` (`content_table.dfy`): `app/content/ContentTable.tsx`.
  This covers the tag universe as a method with the source's nested loops,
  the filter predicate and its properties, the `toggleTag` updater, and
  `hasActiveFilters`. It also covers the empty-state message and a
  `ContentTable` class whose four fields are the component's four state
  cells.

Host services are parameters. A `Clock` value carries `parse` (what
`new Date(text)` yields, `None` for `NaN`), `toLocale`, `toIso` and the local
time-zone offset. The random digits of `Math.random().toString(36)` are a
`token` string, one per row index.

Behaviour of the code that is easy to miss; the model follows the code:

- The id fallback chain uses `??`. An empty-string source URL, title or
  summary is therefore taken as the id; it is not skipped as "empty".
- `fallbackId` is computed before the record is built. So when the chain
  reaches a capture date that is an invalid `Date`, `toISOString` throws.
  This happens even if the row has an id of its own. The throw escapes the
  `rows.map`, and the `catch` in `loadScrapedContent` turns the whole list
  into `[]`. `Transform` returns `None` in exactly that case, and
  `LoadScrapedContent` returns `[]`.
- An invalid `Date` object is truthy. Such a capture date is displayed as
  "Invalid Date", not as "Unknown".
- The search joins the four fields with `"\n"`, and that character may
  occur inside a field. `SearchMatchesSomeField` shows that a query
  without a newline still never matches across two fields.
- The start bound is the instant the date input parses to. The code does
  not shift it to local midnight.

## Model

| member | source | states |
|---|---|---|
| `Text.Trim` | app/content/page.tsx:71 | `trim` leaves neither end white |
| `Text.TrimFrames` | app/content/page.tsx:71 | what `trim` removes is a white prefix and a white suffix |
| `Text.TrimUnique` | app/content/page.tsx:71 | the trimmed string framed by white space on both sides is unique, and it is `Trim(s)` |
| `Text.TrimTrimmed` | app/content/ContentTable.tsx:23-24 | trimming an already trimmed tag changes nothing |
| `Text.JoinSplit` | app/content/page.tsx:55 | joining the pieces of `split(",")` with commas gives back the string |
| `Text.SplitJoin` | app/content/page.tsx:55 | splitting a comma-join of comma-free pieces gives back the pieces |
| `Text.ContainsOccurs` | app/content/ContentTable.tsx:46 | `includes` holds exactly when the query occurs at some index |
| `Text.ContainsInJoin` | app/content/ContentTable.tsx:43-46 | a query without the separator occurs in a join exactly when it occurs in one piece |
| `Text.LowerJoin` | app/content/ContentTable.tsx:43-45 | lower-casing the joined text equals joining the lower-cased fields |
| `Text.Lower` | app/content/ContentTable.tsx:32-33 | `toLowerCase` keeps the length and lower-cases each character on its own, so it distributes over concatenation (`LowerAppend`) |
| `Text.Split` | app/content/page.tsx:55 | `split(",")` returns at least one piece and no piece holds a comma; `JoinSplit` and `SplitJoin` make it the inverse of `Join` |
| `Text.Join` | app/content/ContentTable.tsx:44 | `join`: the pieces with the separator between them; its partner is `Split`, through `JoinSplit` and `SplitJoin` |
| `Text.Contains` | app/content/ContentTable.tsx:46 | `includes`; `ContainsOccurs` proves it equal to "occurs at some index" |
| `Text.Below` | app/content/ContentTable.tsx:28 | the `localeCompare` order; `BelowIrreflexive`, `BelowTransitive` and `BelowTotal` make it a strict total order |
| `Text.Sort` | app/content/ContentTable.tsx:28 | the sorted list is ordered and is a permutation of its input |
| `Text.SortStrict` | app/content/ContentTable.tsx:28 | sorting a duplicate-free list gives a strictly increasing list |
| `Text.StrictlySortedUnique` | app/content/ContentTable.tsx:28 | two strictly increasing lists with the same elements are equal |
| `Seqs.Filter` | app/content/ContentTable.tsx:41 | `filter` returns a subsequence that keeps each passing element as often as the input has it and drops the rest |
| `Seqs.MapOrThrow` | app/content/page.tsx:36 | a throwing `map` gives one result per element, in order, or throws when some callback throws |
| `Dates.LocaleString` | app/content/page.tsx:70 | `toLocaleString`: the clock's locale rendering of a valid date, and "Invalid Date" for an invalid one; `CapturedAtUnknownExactly` ties it to the record |
| `Dates.EndOfDay` | app/content/ContentTable.tsx:37-39 | `setHours(23, 59, 59, 999)` stays in the local day and does not move the time back |
| `Dates.EndOfDayBound` | app/content/ContentTable.tsx:37-39 | an instant is at or before the end bound exactly when its local day is not after the bound's day |
| `Records.TrimAll` | app/content/page.tsx:71 | `tags.map((tag) => tag.trim())`: one trimmed tag per input tag, in order |
| `Records.CleanTags` | app/content/page.tsx:71 | every tag is trimmed and non-empty; the result is a subsequence of the trimmed tags that keeps every non-empty one |
| `Records.CapturedAtValue` | app/content/page.tsx:44-49 | there is no capture date exactly when the raw value is null or the empty string |
| `Records.TagsSource` | app/content/page.tsx:51-56 | null tags give `[]`; a tag string is split into pieces that join back to the string |
| `Records.FallbackId` | app/content/page.tsx:58-63 | the chain throws exactly when source URL, title and summary are null and the capture date is an invalid `Date`; with no capture date at all it ends in `row-` plus the random digits |
| `Records.Transform` | app/content/page.tsx:43-74 | the row throws exactly when source URL, title and summary are null and the capture date is an invalid `Date`; all output tags are trimmed and non-empty |
| `Records.TransformId` | app/content/page.tsx:58-66 | the id is the row's own id, else the first non-null of source URL, title, summary, the ISO date, else `row-` plus the random digits |
| `Records.TransformDefaults` | app/content/page.tsx:67-72 | present text fields pass through; the title defaults to "Untitled capture", the others to "" |
| `Records.TransformTags` | app/content/page.tsx:51-56 | null tags give `[]`; an array and a comma-split string are both cleaned |
| `Records.CapturedAtUnknownExactly` | app/content/page.tsx:44-70 | for a locale rendering that never yields "Unknown", the date reads "Unknown" exactly when the raw value is null or ""; otherwise it is the locale rendering |
| `Records.StringAndArrayTagsAgree` | app/content/page.tsx:52-56 | a comma-joined tag string and the array of the same comma-free tags normalise alike |
| `Records.CommaStringExample` | app/content/page.tsx:55-71 | `"a, b ,  c"` split on commas and cleaned gives `["a", "b", "c"]` |
| `Records.MapRows` | app/content/page.tsx:36 | one record per row in row order, or a throw when some row throws |
| `Records.LoadScrapedContent` | app/content/page.tsx:21-41 | no database, a failing query or a throwing row give `[]`; otherwise the records of the rows in order |
| `ContentFilter.AllTags` | app/content/ContentTable.tsx:19-29 | the tag universe is strictly sorted and duplicate-free, holds only trimmed non-empty strings, and holds exactly the trimmed non-empty tags of the records |
| `ContentFilter.TagUniverseOrderIndependent` | app/content/ContentTable.tsx:19-29 | the tag universe depends only on which records there are, not on their order |
| `ContentFilter.StartBound` | app/content/ContentTable.tsx:34 | the start bound: none for a blank input, else the parsed instant; `UnparsedBoundIgnored` shows an unparseable one acts as blank |
| `ContentFilter.EndBound` | app/content/ContentTable.tsx:35-39 | there is an end bound exactly when the input is non-blank and parses; it keeps the parsed instant's local day and does not move it back |
| `ContentFilter.CriteriaOf` | app/content/ContentTable.tsx:32-39 | the trimmed lower-case search, the lower-cased selected tags and the two bounds; used by `Filtered` and its lemmas |
| `ContentFilter.SearchText` | app/content/ContentTable.tsx:43-44 | title, summary, raw text and source URL, in that order, joined with `"\n"`; `SearchMatchesSomeField` states what searching it means |
| `ContentFilter.MatchesSearch` | app/content/ContentTable.tsx:42-47 | the search check; `SearchMatchesSomeField` states what it means |
| `ContentFilter.MatchesTags` | app/content/ContentTable.tsx:49-53 | the tag check; `TagCheckIsConjunction` and `TagMatchExample` state what it means |
| `ContentFilter.MatchesStart` | app/content/ContentTable.tsx:58-60 | the start check: no bound, or a parsed capture date at or after it; `UnparsedCaptureHidden` covers the unparsed date |
| `ContentFilter.MatchesEnd` | app/content/ContentTable.tsx:62-64 | the end check; `EndDayIncluded` states which local days it admits |
| `ContentFilter.Keeps` | app/content/ContentTable.tsx:41-67 | the `filter` callback: all four checks on the re-parsed display date; `Filtered` keeps exactly the records it passes |
| `ContentFilter.Filtered` | app/content/ContentTable.tsx:31-68 | the visible records are a subsequence of the content, in order, exactly those passing all four checks, never more than the content |
| `ContentFilter.UnconstrainedShowsAll` | app/content/ContentTable.tsx:32-64 | a white-space search, no tags and blank or unparseable dates show exactly the content |
| `ContentFilter.UnparsedBoundIgnored` | app/content/ContentTable.tsx:34-39 | an unparseable start or end date filters exactly like a blank one |
| `ContentFilter.UnparsedCaptureHidden` | app/content/ContentTable.tsx:55-64 | under a valid start or end bound a record whose date does not parse is hidden |
| `ContentFilter.EndDayIncluded` | app/content/ContentTable.tsx:35-64 | the end check admits a date exactly when its local day is not after the local day of the parsed end input |
| `ContentFilter.TagCheckIsConjunction` | app/content/ContentTable.tsx:49-53 | the tag check passes exactly when every selected tag matches some record tag, ignoring case |
| `ContentFilter.TagMatchExample` | app/content/ContentTable.tsx:49-53 | a record tagged `["X"]` is shown for `["x"]` and hidden for `["x", "y"]` |
| `ContentFilter.SearchMatchesSomeField` | app/content/ContentTable.tsx:42-47 | a newline-free query matches exactly when it occurs, ignoring case, in one of the four fields |
| `ContentFilter.Toggled` | app/content/ContentTable.tsx:70-76 | an absent tag is appended; a present tag loses every occurrence while the rest keep their order and counts |
| `ContentFilter.ToggleTwiceRestores` | app/content/ContentTable.tsx:70-76 | toggling an absent tag twice restores the selection |
| `ContentFilter.HasActiveFilters` | app/content/ContentTable.tsx:78-82 | a filter is active when the trimmed search is non-empty, a tag is selected or a date input is non-blank; `InactiveShowsAll` and `ClearedShowsAll` state its meaning |
| `ContentFilter.InactiveShowsAll` | app/content/ContentTable.tsx:78-82 | with no active filter every record is shown |
| `ContentFilter.ClearedShowsAll` | app/content/ContentTable.tsx:84-89 | the cleared state has no active filter and shows every record |
| `ContentFilter.EmptyStateMessage` | app/content/ContentTable.tsx:91-93 | "No captures yet" for no records and no active filter, else the no-match text; `EmptyStateMessageAccurate` states its meaning |
| `ContentFilter.EmptyStateMessageAccurate` | app/content/ContentTable.tsx:91-93 | when nothing is shown, the message says "No captures yet" exactly when no filter is active |
| `ContentFilter.ContentTable.constructor` | app/content/ContentTable.tsx:12-15 | the four state cells start blank |
| `ContentFilter.ContentTable.SetSearch` | app/content/ContentTable.tsx:106 | the search box changes only the search text |
| `ContentFilter.ContentTable.SetStartDate` | app/content/ContentTable.tsx:155 | the start picker changes only the start date |
| `ContentFilter.ContentTable.SetEndDate` | app/content/ContentTable.tsx:165 | the end picker changes only the end date |
| `ContentFilter.ContentTable.ToggleTag` | app/content/ContentTable.tsx:70-76 | only the selection changes, to its toggled value |
| `ContentFilter.ContentTable.ClearFilters` | app/content/ContentTable.tsx:84-89 | all four cells become blank and no filter is active |

## Left out

- Database access: the query, its `DESC NULLS LAST` order, `limit(200)`, the connection pool in `lib/db/index.ts` and the console messages. `LoadScrapedContent` only takes the outcome of the fetch: no database, a failed query, or the rows.
- `lib/db/schema.ts` is used only to decide which columns are nullable. The `id` column is modelled as nullable too, because the code handles a null id.
- JavaScript `Date` internals: `new Date(...)`, `toLocaleString` and `toISOString` are `Clock` parameters. Among other things, the parse hides that date-only input strings parse as UTC midnight.
- ContentFilter.EndDayIncluded: the end day is the local day of the instant the end input parses to. A date-only input such as "2024-01-10" parses as UTC midnight, so west of UTC that instant falls on the previous local day. Records captured on the picked day itself are then hidden by the end check. The model keeps this behaviour of the code and does not promise that the picked day is included.
- Time zones are a fixed offset with no daylight-saving changes. An end-of-day time outside the range of valid `Date` values, which JavaScript would turn into `NaN`, is not modelled.
- Text.Below: `localeCompare` is modelled as code-point lexicographic order, a strict total order. Locale collation, which can order strings differently or call distinct strings equal, is not modelled.
- ContentFilter.TagUniverseOrderIndependent: holds for the modelled strict total order only. `localeCompare` returns 0 for some distinct strings, such as "é" and "e" followed by a combining acute accent. Both are trimmed, non-empty and distinct, so both enter the tag set. `sort` is stable, so such a tied pair keeps the set's insertion order, which is record order. With collation ties the source's tag list therefore depends on record order and is not strictly increasing, so the "strictly sorted" clause of `ContentFilter.AllTags` is also promised for the modelled order only.
- Text.Lower: lower-cases only the letters A to Z. `toLowerCase` also maps the rest of Unicode, whose case tables are not modelled.
- `Math.random` is a `token` parameter per row. That its digits are base-36 and random is not modelled.
- A null element inside a `text[]` tags value, on which `trim` would throw, is outside the row type. Tag arrays hold strings.
- React itself is not modelled: hooks, memoisation and re-rendering. The state cells are the fields of `ContentTable`, and the derived values are functions of a `FilterState` snapshot.
- The markup is not modelled: the `max`/`min` hints on the date pickers, `components/Header.tsx`, `app/page.tsx` and `app/urls/page.tsx`. The last has no record normalisation, so there is no monitored-URL normaliser to model.
