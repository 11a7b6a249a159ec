# Task tracker core, modelled in Dafny

This project models the scheduling core of the Tasktracker web application, a Next.js
to-do list with dated reminders. The model covers these parts:

- **Sorting** (`sort_todos.dfy`). `getDateInfo` classifies a task as undated, date-only or
  date-and-time. `compareTodos` is the tiered comparator. `sortTodos` is the stable sort
  that breaks ties by input position. The proof shows that the sort returns a permutation,
  is ordered by the comparator and keeps the input order of every tie class. It also shows
  that no other arrangement has these three properties.
- **Date helpers** (`date_utils.dfy`). Parsing, validity, the `YYYY-MM-DD`, `HH:mm`, `M/D`
  and month-label formats, "is today" and "is past", the conversions between the bare
  local `YYYY-MM-DDTHH:mm` form and ISO text, and the migration of stored legacy reminders
  to ISO text.
- **Grouping** (`grouping.dfy`). `groupByMonth` and `groupByDate` are one loop over the
  tasks that fills an insertion-ordered `Map`; its entries are then sorted by key. The
  model proves the result against a specification: ascending keys, non-empty buckets that
  keep input order, and every dated task in exactly one bucket. That specification has
  exactly one solution. The proof also covers the dashboard's month-then-day sections and
  its "today" test.
- **Reminders** (`notification.dfy`). `scheduleTaskReminders` arms one timer per open task
  whose reminder lies in the future, with the delay clamped to `2^31 - 1`. The returned
  handle's `clear` cancels exactly those timers. The browser's timer table is a class.
- **Server actions** (`todo_actions.dfy`). The in-memory task array with create, update,
  delete and list.
- **HTTP routes** (`requests.dfy`, `create_route.dfy`, `edit_route.dfy`,
  `delete_route.dfy`). The create, edit and delete handlers as validators. Each returns
  either the JSON answer or an error status with its message.

The JavaScript `Date` is kept abstract as a `Host` value (`js_date.dfy`). A host has four
parts:

- how it parses text;
- the local calendar fields it reports for a time value;
- where a local day starts;
- how it prints `toISOString`.

The current time, the random ids, whether a `window` exists and the user's notification
setup are all parameters.

`compareTodos` returns `-1` for an undated task against a dated one
(`task-tracker/src/lib/sort-todos.js:35-37`), so undated tasks come first. The edit
handler never reads `remindHasTime`, so the model of that handler does not either.

`sortTodos` finds a task's day through `new Date(y, m, d)`, which reads a year from 0 to 99
as 1900 to 1999 (`task-tracker/src/lib/sort-todos.js:11`). The model applies that rule
before asking the host for the local midnight, so such years sort as in the source.

## Model

A source function whose model carries no contract of its own is represented by the lemma
that states its properties, citing the same lines: `GetDateInfo` by DatedIffParses and
HasTimeRule, `CompareTodos` by CompareIsKeyOrder and the rows after it, `FormatISODate` by
FormatISODateSpells, `IsSameYMD` by SameYMDIffSameDateText, `IsTodayISO` by
TodayIffSameDateText, `IsPastISO` by PastStaysPast and InvalidText,
`LocalDatetimeToISO` and `IsoToLocalDatetime` by LocalDatetimeForm and LocalRoundTrip,
`FormatJPYearMonth` by JPYearMonthOfMonthKey, `Fire` by FireAnnouncesTodo and
HandlerOrFallback, and `CreatePost`, `EditPost` and `DeletePost` by the route lemmas.

| member | source | states |
|---|---|---|
| SortTodos.DatedIffParses | task-tracker/src/lib/sort-todos.js:3-10 | A task counts as dated exactly when its reminder is present, non-empty and parses. Its timestamp is the parsed time. |
| SortTodos.HasTimeRule | task-tracker/src/lib/sort-todos.js:11-22 | An explicit `remindHasTime` decides whether the task has a clock time. Otherwise it has one exactly when the local hour, minute or second is non-zero. |
| SortTodos.CompareIsKeyOrder | task-tracker/src/lib/sort-todos.js:31-55 | The sign of `compareTodos` is the lexicographic comparison of the key (dated, local day, timed, timestamp when timed). |
| SortTodos.KeyOrderTotal | task-tracker/src/lib/sort-todos.js:31-55 | The comparator's key order is total, and two keys that are each at most the other are equal. |
| SortTodos.KeyLeTransitive | task-tracker/src/lib/sort-todos.js:31-55 | The key order is transitive, and strict when either step is strict. |
| SortTodos.CompareAntisymmetric | task-tracker/src/lib/sort-todos.js:31-55 | Swapping the two tasks negates the sign of the comparison. |
| SortTodos.CompareTransitive | task-tracker/src/lib/sort-todos.js:31-55 | "Not after" is transitive, and strictly so when either step is strict. |
| SortTodos.UndatedFirst | task-tracker/src/lib/sort-todos.js:35-37 | An undated task compares before every dated task. |
| SortTodos.UndatedTie | task-tracker/src/lib/sort-todos.js:38-40 | Two undated tasks tie. |
| SortTodos.EarlierDayFirst | task-tracker/src/lib/sort-todos.js:42-44 | Dated tasks on different local days go in calendar order, whatever their times, when local midnights increase with the date and both years lie on the same side of the rule that `new Date(y, m, d)` reads years 0 to 99 as 1900 to 1999. |
| SortTodos.TwoDigitYearSortsLate | task-tracker/src/lib/sort-todos.js:11 | Because `new Date(y, m, d)` reads year 50 as 1950, a task in local year 50 sorts after a task in local year 1000 although its day is earlier. |
| SortTodos.DateOnlySameDayTie | task-tracker/src/lib/sort-todos.js:46-52 | Two date-only tasks on the same local day tie, whatever their timestamps. |
| SortTodos.SameDayOrder | task-tracker/src/lib/sort-todos.js:46-54 | On one local day a date-only task precedes a timed one, and timed tasks go by timestamp. |
| SortTodos.SortTodos | task-tracker/src/lib/sort-todos.js:57-69 | A non-array gives the empty list. Otherwise the result is a permutation of the input, ordered by `compareTodos`, and every class of tied tasks keeps its input order. |
| SortTodos.SortListFacts | task-tracker/src/lib/sort-todos.js:61-68 | Sorting the indexed list is a permutation that is ordered by key and keeps each tie class in input order. |
| SortTodos.SortedByKeyIsSortedByCompare | task-tracker/src/lib/sort-todos.js:63-67 | Being ordered by key is the same as every earlier task comparing "not after" every later one. |
| SortTodos.WithKeyMembers | task-tracker/src/lib/sort-todos.js:63-67 | A tie class holds exactly the tasks of the list with that key. |
| SortTodos.StableArrangementUnique | task-tracker/src/lib/sort-todos.js:61-68 | Two orderings by key whose tie classes appear in the same order are the same list. The stable sort's result is therefore unique. |
| SortTodos.SortTodosIsTheStableSort | task-tracker/src/lib/sort-todos.js:57-69 | Any arrangement that is ordered by the comparator and keeps every tie class in input order equals `sortTodos`' result. |
| JsDate.IsoIsNotBareLocal | task-tracker/src/lib/utils/date.ts:102 | ISO text never matches the legacy bare local pattern. |
| DateUtils.InvalidText | task-tracker/src/lib/utils/date.ts:4-7 | A missing or empty reminder is an invalid date. For text that does not parse, every helper takes its invalid branch: no time, no `M/D`, not today, not past, no ISO, empty local text, never the same day as any date. |
| DateUtils.MonthKeySpells | task-tracker/src/lib/utils/date.ts:62 | The month key is the year numeral, a dash and the two-digit month. |
| DateUtils.DateKeySpells | task-tracker/src/lib/utils/date.ts:13-18 | The date text is the year numeral, a dash, the two-digit month, a dash and the two-digit day. |
| DateUtils.ClockTextSpells | task-tracker/src/lib/utils/date.ts:28-30 | The clock text is the two-digit local hour, a colon and the two-digit local minute. |
| DateUtils.FormatISODateSpells | task-tracker/src/lib/utils/date.ts:13-18 | `formatISODate` spells a valid date's local day, and gives `NaN-NaN-NaN` for an invalid one. |
| DateUtils.FormatTime | task-tracker/src/lib/utils/date.ts:25-31 | There is a result exactly when the text parses, and it spells the local `HH:mm`. |
| DateUtils.FormatDateJP | task-tracker/src/lib/utils/date.ts:33-37 | There is a result exactly when the text parses, and it is the unpadded local month, a slash and the unpadded day. |
| DateUtils.DateKeyInjective | task-tracker/src/lib/utils/date.ts:13-18 | Two local dates have the same date text exactly when they are the same day. |
| DateUtils.MonthKeyInjective | task-tracker/src/lib/utils/date.ts:62 | Two local dates have the same month key exactly when they share year and month. |
| DateUtils.MonthKeyIsDatePrefix | task-tracker/src/lib/utils/date.ts:62 | A date's text is its month key followed by a dash and the two-digit day. |
| DateUtils.SameYMDIffSameDateText | task-tracker/src/lib/utils/date.ts:39-43 | For valid dates, `isSameYMD` holds exactly when their `formatISODate` texts are equal. |
| DateUtils.TodayIffSameDateText | task-tracker/src/lib/utils/date.ts:45-49 | `isTodayISO` holds exactly when the text parses and its date text equals that of `now`. |
| DateUtils.PastStaysPast | task-tracker/src/lib/utils/date.ts:51-55 | Once `isPastISO` holds, it keeps holding as the clock advances. |
| DateUtils.MonthKeyOrder | task-tracker/src/lib/utils/date.ts:57-67 | For four-digit years, ordinal order of month keys is calendar order of months. |
| DateUtils.DateKeyOrder | task-tracker/src/lib/utils/date.ts:69-79 | For four-digit years, ordinal order of date texts is calendar order of days. |
| DateUtils.JPYearMonthOfMonthKey | task-tracker/src/lib/utils/date.ts:20-23 | For a month key built by grouping, the intended label is the unpadded month number followed by 月. |
| DateUtils.JPYearMonthMisencoded | task-tracker/src/lib/utils/date.ts:20-23 | As written, the label differs from the intended one for every input, and is two characters longer. |
| DateUtils.MayLabelAsWritten | task-tracker/src/lib/utils/date.ts:22 | For May 2024 the key is `2024-05`, and the label as written is `5` followed by the three mis-encoded characters. |
| DateUtils.LocalDatetimeForm | task-tracker/src/lib/utils/date.ts:88-99 | For a four-digit local year, `isoToLocalDatetime` yields the bare local form, spelling the local date, hour and minute. |
| DateUtils.LocalRoundTrip | task-tracker/src/lib/utils/date.ts:82-99 | Bare local text whose year does not start with 0, and that the host reads as its own local fields, converts to ISO text and back to the same text. |
| DateUtils.MigrateTodo | task-tracker/src/lib/utils/date.ts:104-109 | A task without a legacy reminder is returned unchanged. For a legacy reminder only the reminder may change: it becomes the ISO text of the time the host parses it to, and it is kept as it was when the host cannot parse it, as the fallback to `t.remindAt` does. |
| DateUtils.MigrateTodosToISO | task-tracker/src/lib/utils/date.ts:101-112 | A non-array is returned as is. Otherwise the length is kept and each element is `MigrateTodo` of the element at the same position, so it is converted or kept as that row states. |
| DateUtils.MigrateIdempotent | task-tracker/src/lib/utils/date.ts:101-112 | Migrating twice is migrating once. |
| DateUtils.MigrateTodoStable | task-tracker/src/lib/utils/date.ts:104-109 | A migrated task is left alone by a second migration. |
| DateUtils.MigrationLeavesOnlyUnreadableLegacy | task-tracker/src/lib/utils/date.ts:101-112 | After migration, the only legacy reminders left are ones the host cannot parse. |
| DateGrouping.GroupBy | task-tracker/src/lib/utils/date.ts:57-67 | The loop and the key sort produce a grouping. Keys are ascending and distinct, and each bucket is non-empty and is exactly the tasks with that key in input order. Every task with a parsable reminder is filed. |
| DateGrouping.GroupByMonth | task-tracker/src/lib/utils/date.ts:57-67 | The result is the grouping of the tasks by their `YYYY-MM` key. |
| DateGrouping.GroupByDate | task-tracker/src/lib/utils/date.ts:69-79 | The result is the grouping of the tasks by their `formatISODate` key. |
| DateGrouping.SortKeys | task-tracker/src/lib/utils/date.ts:66 | The sorted keys are ascending and are exactly the map's keys. |
| DateGrouping.BucketMembers | task-tracker/src/lib/utils/date.ts:59-65 | A bucket holds exactly the input tasks filed under its key. |
| DateGrouping.GroupMembership | task-tracker/src/lib/utils/date.ts:57-67 | A task is in a group exactly when it has that group's key, and it is in some group exactly when it has a key. |
| DateGrouping.GroupingPartitions | task-tracker/src/lib/utils/date.ts:57-67 | The buckets together hold each dated task exactly once, and nothing else. |
| DateGrouping.GroupingUnique | task-tracker/src/lib/utils/date.ts:57-67 | Two groupings of the same input are equal: the result is determined by the input. |
| DateGrouping.FiledIsDated | task-tracker/src/lib/utils/date.ts:60-61 | A task is filed, under either granularity, exactly when its reminder parses. |
| DateGrouping.MonthGroupsChronological | task-tracker/src/lib/utils/date.ts:57-67 | For four-digit years, a task of an earlier month group lies in an earlier month. |
| DateGrouping.DateGroupsChronological | task-tracker/src/lib/utils/date.ts:69-79 | For four-digit years, a task of an earlier date group lies on an earlier day. |
| DateGrouping.DayOfMonthBucket | task-tracker/src/components/features/dashboard/TodoServerComponent.tsx:71-77 | Grouping a month's bucket by date gives the same day buckets as grouping everything by date. Each day key extends the month key. |
| DateGrouping.MonthDays | task-tracker/src/components/features/dashboard/TodoServerComponent.tsx:77 | The date grouping of a month bucket consists of day sections of that month, each equal to the global bucket of its day. |
| DateGrouping.CalendarSections | task-tracker/src/components/features/dashboard/TodoServerComponent.tsx:71-77 | The month view is the month grouping, and under each month the day sections of that month. |
| DateGrouping.TodaySection | task-tracker/src/components/features/dashboard/TodoServerComponent.tsx:31-33 | When the host reads `date + "T00:00:00"` as local midnight of that day, a date section is shown as today exactly when its key is today's date text. |
| Notification.QualifiesIffFuture | task-tracker/src/lib/notification.js:38-40 | A task gets a timer exactly when it is open and its reminder parses to a time that is neither past nor the present instant. |
| Notification.DelayClamped | task-tracker/src/lib/notification.js:41 | The delay is the time left, clamped to `2^31 - 1`, so it lies between 1 and `2^31 - 1`. |
| Notification.PlanFollowsQualifying | task-tracker/src/lib/notification.js:37-50 | One timer is armed per qualifying task, in input order, each with that task's delay. |
| Notification.QualifyingMembers | task-tracker/src/lib/notification.js:37-40 | The qualifying tasks are exactly the input's open tasks with a strictly future reminder. |
| Notification.NeverArmed | task-tracker/src/lib/notification.js:38-40 | A completed task, or one with a missing, unreadable or past reminder, never gets a timer. |
| Notification.TimerHost.constructor | task-tracker/src/lib/notification.js:42 | A new timer table is empty. |
| Notification.TimerHost.SetTimeout | task-tracker/src/lib/notification.js:42-48 | `setTimeout` records the timer under an id never used before and changes nothing else. |
| Notification.TimerHost.ClearTimeout | task-tracker/src/lib/notification.js:22 | `clearTimeout` removes exactly that id and ignores an unknown one. |
| Notification.ReminderHandle.constructor | task-tracker/src/lib/notification.js:21 | A new handle has recorded no timers. |
| Notification.ReminderHandle.Clear | task-tracker/src/lib/notification.js:22 | `clear` cancels every recorded timer and leaves every other pending timer unchanged. |
| Notification.ScheduleTaskReminders | task-tracker/src/lib/notification.js:20-53 | Without a window nothing is armed. Otherwise each pending timer is the planned reminder of its position, under fresh consecutive ids, which the handle records. Earlier timers are untouched. |
| Notification.FireAnnouncesTodo | task-tracker/src/lib/notification.js:42-48 | A firing is titled リマインド and carries the task's name, or タスク when the name is empty. An alert shows the title, a newline and the body. |
| Notification.HandlerOrFallback | task-tracker/src/lib/notification.js:43-47 | The caller's handler is used exactly when it is a function that does not throw. Otherwise a system notification is shown when it is permitted and does not fail, and an alert when not. |
| TodoActions.FindIndex | task-tracker/src/lib/actions/todo-actions.ts:28 | The index is the first position holding the id, or there is none when no task has it. |
| TodoActions.TodoStore.constructor | task-tracker/src/lib/actions/todo-actions.ts:9 | The store starts empty. |
| TodoActions.TodoStore.CreateTodo | task-tracker/src/lib/actions/todo-actions.ts:11-25 | Appends an open task with the given id, the request's text and reminder, and equal creation and update stamps, and returns it. |
| TodoActions.TodoStore.UpdateTodo | task-tracker/src/lib/actions/todo-actions.ts:27-45 | With an unknown id, returns nothing and changes nothing. Otherwise it replaces the first task with the id by its merged record, changes nothing else, and returns the merged record. |
| TodoActions.TodoStore.DeleteTodo | task-tracker/src/lib/actions/todo-actions.ts:47-57 | Removes every task with the id and reports true exactly when one was there. |
| TodoActions.TodoStore.GetAllTodos | task-tracker/src/lib/actions/todo-actions.ts:59-61 | Returns the store's current contents. |
| TodoActions.UpdatedMerges | task-tracker/src/lib/actions/todo-actions.ts:32-39 | The merged record keeps the id and creation time and takes a new update time. Each of text, completion and reminder comes from the request exactly when it is supplied. |
| TodoActions.WithoutShrinks | task-tracker/src/lib/actions/todo-actions.ts:49-51 | Filtering keeps exactly the tasks with another id, and shortens the list exactly when the id was present. |
| TodoActions.WithoutIdempotent | task-tracker/src/lib/actions/todo-actions.ts:49 | Deleting an id twice is deleting it once. |
| TodoActions.CreateKeepsIdsUnique | task-tracker/src/lib/actions/todo-actions.ts:11-21 | Appending a task with a new id keeps ids unique. |
| TodoActions.UpdateKeepsIdsUnique | task-tracker/src/lib/actions/todo-actions.ts:27-41 | An update keeps ids unique, the length unchanged and the task at its position. |
| TodoActions.DeleteKeepsIdsUnique | task-tracker/src/lib/actions/todo-actions.ts:47-49 | Deleting keeps ids unique and leaves no task with the deleted id. |
| Requests.NormaliseNoteSpec | task-tracker/src/app/api/create/route.js:13-23 | A note is refused exactly when its trimmed text exceeds 280 characters. A stored note is trimmed, non-blank and at most 280 long. A blank note stores nothing. |
| CreateRoute.CreateNoteRefuses | task-tracker/src/app/api/create/route.js:13-23 | The note is refused exactly when it is a non-string or too long, each with its own message. |
| CreateRoute.CreateRemindAtRefuses | task-tracker/src/app/api/create/route.js:26-33 | The reminder is refused exactly when it is truthy and makes no valid date. |
| CreateRoute.CreateChecksInOrder | task-tracker/src/app/api/create/route.js:8-33 | The name is checked first, then the note, then the reminder. The task is accepted exactly when none of the three is refused. |
| CreateRoute.CreateNonObjectBodies | task-tracker/src/app/api/create/route.js:4-51 | An unreadable or `null` body is a server error. A primitive body lacks a name. |
| CreateRoute.CreatedTask | task-tracker/src/app/api/create/route.js:35-45 | An accepted task has the given id, the name as sent and is not completed. It has a reminder exactly when one was truthy, as the ISO text of its date. It has a note exactly when a non-blank string note was sent, trimmed and at most 280 characters long. |
| CreateRoute.BlankNameAccepted | task-tracker/src/app/api/create/route.js:9-11 | A name of blanks passes the truthiness check and is kept untrimmed. |
| EditRoute.EditRemindAtSpec | task-tracker/src/app/api/edit/route.js:20-34 | A missing reminder keeps the old one, and `null` or `""` clears it. Any other value is refused exactly when it makes no valid date, and otherwise is set to its ISO text. Past dates are accepted. |
| EditRoute.EditNoteSpec | task-tracker/src/app/api/edit/route.js:36-49 | A missing note keeps the old one, and `null` or blank text clears it. A non-string or a note over 280 characters is refused. A stored note is trimmed. |
| EditRoute.EditChecksInOrder | task-tracker/src/app/api/edit/route.js:12-49 | The id is checked first, then a blank string name, then the reminder, then the note. The edit is accepted exactly when none of the four is refused. |
| EditRoute.EditedFields | task-tracker/src/app/api/edit/route.js:52-57 | The answer echoes the id. It carries a trimmed non-empty name exactly when a string name was sent, and the reminder and note changes the two rules give. |
| EditRoute.EditNonObjectBodies | task-tracker/src/app/api/edit/route.js:5-14 | An unreadable body is a server error. A `null` or primitive body has no id. |
| EditRoute.NullIsIgnored | task-tracker/src/app/api/edit/route.js:9-10 | As written, an explicit `null` reminder or note is the same as leaving the field out. |
| EditRoute.NullClears | task-tracker/src/app/api/edit/route.js:20-23 | As intended, an explicit `null` clears the reminder and the note. Every other body gets the same answer as the handler as written gives. |
| DeleteRoute.DeleteAcknowledges | task-tracker/src/app/api/delete/route.js:3-19 | A deletion is acknowledged, echoing the id, exactly for an object body whose id is a non-empty string. Otherwise an unreadable body is a server error and any other body has an invalid id. |
| DeleteRoute.DeleteReadsOnlyId | task-tracker/src/app/api/delete/route.js:5-13 | Bodies that differ only outside the id get the same answer. |
| DeleteRoute.SameIdCheckAsEdit | task-tracker/src/app/api/delete/route.js:7-9 | The delete handler refuses exactly the same bodies as having an invalid id as the edit handler does, both as written and as intended. |

## Left out

- `getNotificationPermission` and `requestNotificationPermission` (`notification.js:2-16`) only query the browser. Permission appears in the model as the `canNotify` parameter.
- Notification.ScheduleTaskReminders does not model when timers fire or their firing order. A firing is modelled as a separate `Fire` value, and the side effects of `new Notification` and `alert`, including their exceptions being swallowed, are abstracted to a `Delivery` result.
- Notification.ScheduleTaskReminders, DateUtils.MigrateTodosToISO, SortTodos.SortTodos, DateGrouping.GroupByMonth and DateGrouping.GroupByDate take lists of task records only, so a `null` element has no counterpart. In the source, the `t?.` guards make reminders and migration skip such an element, and `sortTodos` sorts it as undated (`!todo`, `sort-todos.js:4`). `groupByMonth` and `groupByDate` throw a `TypeError` on it when reading `t.remindAt` (`date.ts:60` and `date.ts:72`). The `typeof` check on a stored non-string reminder has no counterpart either.
- `crypto.randomUUID()` and `new Date().toISOString()` are parameters. TodoActions.TodoStore.CreateTodo takes one stamp for both of its `toISOString` calls, so the possibility that they straddle a millisecond is not modelled.
- `revalidatePath` is a cache side effect with no observable result here. `request.json()` is modelled only by its outcome, the `Body` value. `Response.json` is modelled by the `Response` value.
- TodoActions.TodoStore.GetAllTodos returns a copy of the sequence. The source hands out the live array, so the model does not capture aliasing between the caller and later updates.
- `updateTodo` writes a literal without `note` and `remindHasTime`, so the merged record drops both. The model reproduces this rather than leaving it out.
- DateGrouping.SortKeys orders keys by ordinal character order instead of `localeCompare`. On the keys the tracker builds (ASCII digits and dashes) the two agree for four-digit years. Locale collation is not modelled.
- DateUtils.MonthKeyOrder, DateUtils.DateKeyOrder, DateGrouping.MonthGroupsChronological and DateGrouping.DateGroupsChronological assume four-digit years. Their orders differ for years below 1000, negative years and years above 9999.
- DateUtils.LocalDatetimeForm assumes a four-digit year for the same reason. DateUtils.LocalRoundTrip assumes the host reads the text as its own local fields, which a time-zone transition can break.
- `Number(m)` in `formatJPYearMonth` is modelled for blank text and for digit strings of at most 15 digits, which covers every month field. Longer digit strings print their exact value in the model, whereas JavaScript rounds them to a double and prints strings of 22 or more digits in exponent form. Signs, fractions, exponents and hexadecimal text are read as `NaN`.
- DateUtils.LocalRoundTrip does not cover years 0000 to 0999: `isoToLocalDatetime` prints `getFullYear()` unpadded (`date.ts:93` and `date.ts:98`), so `0999-01-01T00:00` comes back as `999-01-01T00:00`, and the lemma requires a year that does not start with 0.
- Requests.NormaliseNoteSpec counts Unicode scalar values, whereas `.length` counts UTF-16 code units. A note with characters outside the Basic Multilingual Plane can therefore exceed 280 in the source but not in the model.
- The host's parsing, time zone and `toISOString` are left abstract. Only the ranges of the local fields and the shape of the ISO text are fixed.
- The type declarations, the React components and the remaining context files are not part of this model. The dashboard's use of the grouping functions appears only in DateGrouping.CalendarSections and DateGrouping.TodaySection.

## Findings

| source | as written | input that shows it | evidently intended | confidence | as-written member | corrected member |
|---|---|---|---|---|---|---|
| task-tracker/src/app/api/edit/route.js:9-10 | `?? undefined` turns an explicit `null` into "missing". The `null` branches at lines 22 and 38 can never run, so `null` leaves the reminder and the note unchanged. | `{"id": "a", "remindAt": null, "note": null}` answers `{"id": "a"}`, which changes nothing. | `null` clears the field, as the comments on lines 9 and 20 and the dead branches say. The answer should be `{"id": "a", "remindAt": null, "note": null}`. | not executed; high | EditRoute.NullIsIgnored | EditRoute.NullClears |
| task-tracker/src/lib/utils/date.ts:22 | The suffix is stored double-encoded: three characters U+00E6 U+0153 U+02C6, which are the UTF-8 bytes of 月 read as Windows-1252. | `formatJPYearMonth("2024-05")` gives `5æœˆ`. | `5月` | not executed; high | DateUtils.JPYearMonthMisencoded | DateUtils.JPYearMonthOfMonthKey |
