# Dashboard calendar and item form, modelled in Dafny

This project models the logic of `src/components/Dashboard.jsx`, the teacher/student dashboard of a small school-planner front end. It covers two parts.

- **The calendar view model.** Tasks and events are projected into uniform calendar items: tasks first, then events. Each item gets a month key of the form `year-month`, with the month one-based and unpadded. Items are pushed into one bucket per key, in input order. The buckets are listed in the default (string) sort order of their keys. Each bucket is sorted by date with a stable sort. Tasks dated strictly before `now` carry the "Deadline reached" badge.
- **The `CreateItem` form.** The panel renders nothing for a user who is not a teacher. The Create button posts a task or an event, depending on the tab. A successful response clears the fields the sent request was built from, except the audience, even if the user switched tabs while it was in flight, and triggers a refresh.

How the pieces are represented:

- **Instants** are integers: milliseconds since 1970-01-01T00:00Z. The viewer's local time is a fixed offset from UTC (`CivilDate.Zone`).
- **Local year and month.** The month key takes the year and month of `new Date(it.date)` in local time. It is computed with the days-to-civil conversion of the proleptic Gregorian calendar, the same calendar ECMAScript Date uses. That conversion is proved to invert the civil-to-days one, to yield only valid dates, and to move one date forward per day. With day 0 being 1970-01-01, this fixes the date of every day number.
- **Decimal rendering.** The key's numbers are rendered as a template literal renders integers: an optional minus sign, then digits with no padding. A parser is proved to be its inverse, which makes the key injective in (year, month).
- **Key order** is the order `Array.prototype.sort()` uses when no comparator is given: code unit by code unit, with a proper prefix first. The model keeps this order as the code has it, so "2024-10" is listed before "2024-2" and before "2024-3". A numeric (year, month) order would list them the other way round. That order is not what the code does, so it is not modelled.
- **Both sorts** are insertion sorts:
  - The date sort is proved sorted, a permutation, and stable: on every date, items keep their input order. It is also proved to be the only sorted, stable permutation. So any stable sort the host uses (section 23.1.3.30 of ECMA-262 requires stability) gives the same rows.
  - The key sort is proved sorted and a permutation. Its output is unique for distinct keys.

Modules, one file each:

| module | contents |
|---|---|
| `Wrappers` | `Option` |
| `Decimal` | decimal rendering and parsing of integers |
| `CivilDate` | day numbers, civil dates, local year and month |
| `CalendarItems` | `Task`, `Event`, `CalendarItem`, the projection |
| `MonthKey` | the month key and its inverse |
| `StringOrder` | the default string order and the key sort |
| `DateSort` | the stable date sort |
| `Grouping` | the buckets (`map`) and `Object.keys` insertion order |
| `Calendar` | the rendered groups and their properties, stated for any key function; the dashboard passes the month key of the viewer's zone |
| `CreateItem` | the form state, its requests and its response handling |
| `Scenarios` | worked instances on concrete dates |

## Model

| member | source | states |
|---|---|---|
| CalendarItems.TaskItems | src/components/Dashboard.jsx:158 | each task becomes, in order, an item of type task dated at its due date |
| CalendarItems.EventItems | src/components/Dashboard.jsx:159 | each event becomes, in order, an item of type event dated at its start |
| CalendarItems.Project | src/components/Dashboard.jsx:157-160 | the items number tasks plus events; the first ones, as many as there are tasks, are the tasks in order (type, title, due date), the rest the events in order (type, title, start time) |
| CalendarItems.ProjectionBacked | src/components/Dashboard.jsx:157-160 | every item comes from a task or an event, and an item is of type task exactly when it lies in the tasks' prefix |
| Decimal.NatToDecimal | src/components/Dashboard.jsx:75 | a natural renders as a non-empty digit string without a leading zero |
| Decimal.IntToDecimal | src/components/Dashboard.jsx:75 | an integer renders with a leading '-' exactly when negative, then a non-empty digit string with no leading zero, never "-0" |
| Decimal.ParseNatRoundTrip | src/components/Dashboard.jsx:75 | parsing the rendering of a natural gives it back |
| Decimal.ParseIntRoundTrip | src/components/Dashboard.jsx:75 | parsing the rendering of an integer gives it back |
| Decimal.IntToDecimalInjective | src/components/Dashboard.jsx:75 | two integers render the same exactly when they are equal |
| CivilDate.DaysInMonth | src/components/Dashboard.jsx:74 | every month of the Gregorian calendar has 28 to 31 days |
| CivilDate.LocalDay | src/components/Dashboard.jsx:74 | the local day of an instant is the one whose 24-hour span contains the instant shifted by the zone offset, also before 1970 |
| CivilDate.CivilFromDays | src/components/Dashboard.jsx:74-75 | the civil date of every day number is a valid date: its day lies within its month's length, and February 29th occurs only in leap years |
| CivilDate.EraBounds | src/components/Dashboard.jsx:74-75 | within a 400-year era, the year of era is 0..399 and the day of the March-based year 0..365, and day 365 only falls in a year whose following February is a leap February |
| CivilDate.LeapYearInEra | src/components/Dashboard.jsx:74-75 | a year of an era is a leap year exactly when its position in the era is divisible by 4 and, unless it is the era's last year, not by 100 |
| CivilDate.YearMonthOf | src/components/Dashboard.jsx:74-75 | `getFullYear()` and `getMonth() + 1` of an instant: the year and month of the civil date of its local day; `CivilDate.MonthOfInstantIn` states which instants map to which month for a viewer in any zone |
| CivilDate.DaysRoundTrip | src/components/Dashboard.jsx:74-75 | converting a day number to a civil date and back gives the same day number |
| CivilDate.CivilRoundTrip | src/components/Dashboard.jsx:74-75 | every valid civil date is the civil date of its own day number |
| CivilDate.MonthOfInstantIn | src/components/Dashboard.jsx:74-75 | for a viewer in any zone, an instant whose offset-shifted time falls within a valid civil day's 24 hours has that day's year and month |
| CivilDate.NextDayIsNextNumber | src/components/Dashboard.jsx:74-75 | the date after a valid date is valid and has the next day number |
| CivilDate.CivilFromDaysStep | src/components/Dashboard.jsx:74-75 | consecutive day numbers have consecutive civil dates |
| CivilDate.EpochIsDayZero | src/components/Dashboard.jsx:74-75 | day number 0 is 1970-01-01 |
| CivilDate.CivilFromDaysCounts | src/components/Dashboard.jsx:74-75 | for every day number from 0 on, the closed-form conversion gives the date reached by counting that many days forward from 1970-01-01 |
| MonthKey.KeyOf | src/components/Dashboard.jsx:75 | the key contains the '-' separator |
| MonthKey.ItemKey | src/components/Dashboard.jsx:74-75 | an item's key is the key of the local year and month of its date; `MonthKey.SameGroupIffSameMonth` states when two items share it |
| MonthKey.KeyRoundTrip | src/components/Dashboard.jsx:75 | reading a key back at its last '-' recovers the year and the one-based month |
| MonthKey.KeyInjective | src/components/Dashboard.jsx:75 | two months have the same key exactly when they are the same year and month |
| MonthKey.SameGroupIffSameMonth | src/components/Dashboard.jsx:74-77 | two items share a bucket exactly when their dates fall in the same local year and month |
| MonthKey.KeyExamples | src/components/Dashboard.jsx:75 | February 2024 is "2024-2", October 2024 is "2024-10", December of year -1 is "-1-12" |
| StringOrder.LexLe | src/components/Dashboard.jsx:82 | the default string comparison of `sort()`: `StringOrder.LexLeIsFirstDifference` states it is "proper prefix first, else smaller unit at the first difference", and the order lemmas below make it a total order |
| StringOrder.LexLeIsFirstDifference | src/components/Dashboard.jsx:82 | the recursive order agrees with "prefix, or smaller unit at the first difference" in both directions |
| StringOrder.LexLeReflexive | src/components/Dashboard.jsx:82 | every key sorts at or before itself |
| StringOrder.LexLeAntisymmetric | src/components/Dashboard.jsx:82 | two keys each at or before the other are equal |
| StringOrder.LexLessAsymmetric | src/components/Dashboard.jsx:82 | a key strictly before another is not also at or after it |
| StringOrder.LexLeTransitive | src/components/Dashboard.jsx:82 | the order is transitive |
| StringOrder.LexLeTotal | src/components/Dashboard.jsx:82 | any two keys are comparable |
| StringOrder.OctoberKeySortsBeforeFebruary | src/components/Dashboard.jsx:82 | "2024-10" sorts before "2024-2" and "2024-3", "2024-11" before "2024-9", "2024-12" before "2025-1" |
| StringOrder.InsertString | src/components/Dashboard.jsx:82 | inserting into a sorted list adds exactly that key and keeps the list sorted |
| StringOrder.SortStrings | src/components/Dashboard.jsx:82 | the sorted keys are a permutation of the input and in non-decreasing order |
| StringOrder.SortDistinctStrictly | src/components/Dashboard.jsx:82 | sorting distinct keys gives strictly increasing keys |
| StringOrder.StrictlySortedUnique | src/components/Dashboard.jsx:82 | two strictly increasing lists of the same keys are equal, so the sorted key list is determined by the key set |
| DateSort.InsertByDate | src/components/Dashboard.jsx:90 | inserting into a date-sorted list adds exactly that item and keeps it sorted |
| DateSort.SortByDate | src/components/Dashboard.jsx:90 | the sorted bucket is a permutation of the bucket, non-decreasing by date |
| DateSort.OnDateOfInsert | src/components/Dashboard.jsx:90 | an inserted item goes ahead of the items of its own date and changes no other date's items |
| DateSort.SortByDateStable | src/components/Dashboard.jsx:90 | on every date, the sorted bucket lists that date's items in input order |
| DateSort.SortedStableUnique | src/components/Dashboard.jsx:90 | two date-sorted lists with the same items in the same order on every date are equal |
| DateSort.AnyStableSortAgrees | src/components/Dashboard.jsx:90 | every sorted stable permutation of a bucket equals the model's sort |
| DateSort.SortByDateIdempotent | src/components/Dashboard.jsx:90 | sorting a sorted bucket again (each render sorts in place) changes nothing |
| Grouping.WithKey | src/components/Dashboard.jsx:72-79 | the reference bucket holds only items with the given key |
| Grouping.WithKeyOfSnoc | src/components/Dashboard.jsx:77 | a push extends only the bucket of the pushed item's key, at its end |
| Grouping.Bucket | src/components/Dashboard.jsx:72-79 | the map has an entry exactly for each key that occurs, holding exactly that key's items in input order |
| Grouping.WithKeyAbsent | src/components/Dashboard.jsx:76 | a key no item has has an empty bucket |
| Grouping.WithKeyPresent | src/components/Dashboard.jsx:76-77 | a key some item has has a non-empty bucket |
| Grouping.InsertionOrderKeys | src/components/Dashboard.jsx:76-82 | `Object.keys` lists each occurring key exactly once and no other |
| Grouping.GatherIsPermutation | src/components/Dashboard.jsx:72-79 | the buckets of all keys, one after another, hold exactly the input items |
| Calendar.DeadlineReached | src/components/Dashboard.jsx:96 | the badge condition: a task dated strictly before `now`; `Calendar.DeadlineBadge` states it over the whole calendar |
| Calendar.Rows | src/components/Dashboard.jsx:90-97 | each row shows its item, and the badge is shown exactly for a task dated strictly before `now` |
| Calendar.RenderGroups | src/components/Dashboard.jsx:86-90 | the i-th group is headed by the i-th key and lists that key's bucket sorted by date |
| Calendar.RenderCalendar | src/components/Dashboard.jsx:71-90 | the groups `Calendar` renders: `Calendar.CalendarKeys`, `Calendar.CalendarGroups`, `Calendar.CalendarIsPermutation` and `Calendar.EachItemInOneGroup` state their headings, contents, order and completeness |
| Calendar.DashboardCalendar | src/components/Dashboard.jsx:157-170 | the dashboard's calendar: tasks and events projected, then grouped by the month key of the viewer's zone; `Calendar.DashboardTasksBeforeEvents` states the order on shared instants |
| Calendar.SortedKeysOf | src/components/Dashboard.jsx:82 | the sorted keys are strictly increasing and are exactly the keys that occur |
| Calendar.CalendarKeys | src/components/Dashboard.jsx:82-88 | group headings are strictly increasing in string order, and a heading appears exactly when some item has that key |
| Calendar.CalendarGroups | src/components/Dashboard.jsx:86-90 | every group is non-empty, all its items carry its key, and it is sorted by date and stable with respect to the input order of that key's items |
| Calendar.AllItemsOfRender | src/components/Dashboard.jsx:86-90 | the rendered groups hold, as a multiset, the buckets of their keys |
| Calendar.CalendarIsPermutation | src/components/Dashboard.jsx:72-90 | all rendered items together are exactly the input items: nothing lost, nothing duplicated |
| Calendar.EachItemInOneGroup | src/components/Dashboard.jsx:72-90 | each input item is shown in exactly one group, the one headed by its own month key |
| Calendar.UniqueGroup | src/components/Dashboard.jsx:86-90 | with distinct headings and items carrying their group's key, a shown item is in exactly one group |
| Calendar.DeadlineBadge | src/components/Dashboard.jsx:96 | across the whole calendar the badge is shown exactly on tasks dated strictly before `now`, never on events |
| Calendar.ProjectTasksFirst | src/components/Dashboard.jsx:157-160 | in the projection no event precedes a task |
| Calendar.WithKeyTasksFirst | src/components/Dashboard.jsx:76-77 | bucketing keeps tasks ahead of events |
| Calendar.OnDateTasksFirst | src/components/Dashboard.jsx:90 | restricting to one date keeps tasks ahead of events |
| Calendar.StableGroupsTasksFirst | src/components/Dashboard.jsx:90 | in groups stable with respect to input that lists tasks first, each date lists its tasks before its events |
| Calendar.DashboardTasksBeforeEvents | src/components/Dashboard.jsx:90 | on the dashboard, a task and an event on the same instant are shown task first |
| CreateItem.InitialForm | src/components/Dashboard.jsx:16-22 | the hooks' initial values: task tab, every text field empty, audience all students; `CreateItem.SuccessRestoresInitialFields` states that a success returns the cleared fields to them |
| CreateItem.RequestFor | src/components/Dashboard.jsx:27-63 | the Create button sends a task request exactly on the task tab, and the request carries exactly that tab's fields (title, description, due or start and end, audience), each with the form's current value |
| CreateItem.RequestReadsOnlyItsFields | src/components/Dashboard.jsx:27-40 | the request depends only on the tab and that tab's fields (title, description, due or start/end, audience) |
| CreateItem.RequestDeterminesItsFields | src/components/Dashboard.jsx:27-40 | conversely, equal requests come from the same tab with equal values in all of that tab's fields |
| CreateItem.Endpoint | src/components/Dashboard.jsx:28-35 | a task request is posted to `/tasks`, an event request to `/events` |
| CreateItem.IsOk | src/components/Dashboard.jsx:32-39 | `res.ok`: a status from 200 to 299 |
| CreateItem.SenderTabOfRequest | src/components/Dashboard.jsx:63 | a request is of the kind sent from the tab it was built on |
| CreateItem.AfterResponse | src/components/Dashboard.jsx:32-39 | applied to the form as it is when the response arrives: refresh happens exactly on an ok status; otherwise the form is unchanged; after a sent task, success clears title, description and due and keeps start and end; after a sent event, it clears title, description, start and end and keeps due; the shown tab and the audience always stay |
| CreateItem.SuccessClearsRequestFields | src/components/Dashboard.jsx:32-39 | after a success each field is empty if it fed the sent request (audience aside) and unchanged otherwise, whatever tab is shown by then |
| CreateItem.TabSwitchDuringAwait | src/components/Dashboard.jsx:32-46 | switching tabs while the request is in flight changes only the shown tab of the outcome, not which fields are cleared |
| CreateItem.SuccessRestoresInitialFields | src/components/Dashboard.jsx:16-39 | after a success every field the sent request was built from, audience aside, is back at its initial hook value |
| CreateItem.ClearingIsIdempotent | src/components/Dashboard.jsx:32-39 | a second success changes nothing more |
| CreateItem.Panel | src/components/Dashboard.jsx:25 | the panel is shown exactly for the teacher role, with the form as it is |
| CreateItem.Submit | src/components/Dashboard.jsx:25-40 | nothing is sent exactly when the user is not a teacher; otherwise the request of the form at the click is sent and the response is applied to the form as it is when it arrives |
| CreateItem.SubmitClearsItsTab | src/components/Dashboard.jsx:27-40 | with no edit during the request, a success clears exactly the fields of the tab it was sent from, audience aside |
| Scenarios.MonthOfInstant | src/components/Dashboard.jsx:74-75 | an instant within a civil day (UTC) falls in that day's year and month |
| Scenarios.MonthsOfInstants | src/components/Dashboard.jsx:74-75 | 2024-03-01T10:00Z is March 2024, 2024-10-05T09:00Z is October 2024, the epoch is January 1970, one millisecond before it is December 1969 |
| Scenarios.ThreeItemCalendar | src/components/Dashboard.jsx:71-90 | three items whose first and last share a key that sorts after the middle one's give two groups: the middle item alone, then the other two in date order |
| Scenarios.DashboardExample | src/components/Dashboard.jsx:82-90 | tasks due 2024-03-01 and 2024-10-05 and an event starting 2024-03-15 give the group "2024-10" first, then "2024-3" with the task before the event |
| Scenarios.DashboardBadges | src/components/Dashboard.jsx:96 | seen on 2024-06-01, only the March task carries the badge |

## Left out

- Network I/O is not modelled: `load`, its `Promise.all` over three `fetch` calls, `res.json()`, and the notification sweep button (src/components/Dashboard.jsx:144-153, 188). Tasks and events arrive as parameters, and the response to a submit arrives as an optional HTTP status.
- ISO-8601 parsing and formatting are not modelled: `new Date(string)`, `toISOString()` and `toLocaleString()` (src/components/Dashboard.jsx:30, 37, 94). Instants arrive already parsed as integers. Form date fields stay the raw input text.
- CreateItem.Submit: does not model the RangeError that `toISOString()` raises on an empty or malformed date field. That error stops the handler before anything is sent; here the request is always sent, because date parsing is outside the model.
- CivilDate.LocalDay: the viewer's zone is one fixed UTC offset. Daylight-saving changes and historical offsets come from the host's time-zone database, which is not modelled.
- MonthKey.ItemKey: an unparsable date gives the key "NaN-NaN" in the source. Here every date is an integer, so that key cannot arise.
- StringOrder.LexLe: compares `char`s rather than UTF-16 code units. Month keys are ASCII, where the two orders agree.
- The wall clock (`new Date()` at src/components/Dashboard.jsx:96) is the parameter `now`.
- Calendar.Rows: one clock reading `now` stands for the whole render, while the source reads `new Date()` once per row. Those readings differ only by the time the render takes, so a task dated within that span may carry the badge in the source but not here, or the other way round.
- Calendar.DeadlineBadge: states the badge against the single reading `now` of the whole render, not against a separate reading per row, for the reason given for Calendar.Rows.
- Rendering is not modelled: JSX markup, `Header`, `Lists` and the notifications list (src/components/Dashboard.jsx:3-13, 108-135, 175-181).
- React mechanics (`useState`, `useMemo`, `useEffect`) are not modelled. State is an immutable `Form` value; the memoised map is recomputed as a pure function. Re-sorting the memoised buckets in place on each render is covered by `DateSort.SortByDateIdempotent`.
- The field edits of the form's `onChange` handlers and the tab buttons (src/components/Dashboard.jsx:45-59) are plain field assignments. They are not modelled separately; edits made while a request is in flight are covered by passing `CreateItem.Submit` the form at the click and the form when the response arrives.
- Responses to overlapping submits, which can arrive in any order, are not modelled; one response is handled per submit.
- `src/components/AuthForm.jsx` and `src/App.jsx` are not part of this model. They do a backend round trip and switch between the login form and the dashboard.
