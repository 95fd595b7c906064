# Task list: duration normalisation, status tabs and task card presentation

This project models, in Dafny, the logic of a small task tracker's `/tasks`
page and its task card:

- the route's **loader**, which turns away a caller who is not signed in and
  otherwise hands the page the caller's tasks, earliest deadline first;
- the route's **create action**, which turns away a caller who is not signed
  in and otherwise stores one task owned by the caller, with the duration
  converted to minutes (`hours` × 60, `days` × 1440, any other unit string
  taken as minutes);
- the page's **status tabs**: a fixed map from the tab keys `not_started`,
  `ongoing` and `completed` to the three task statuses, and a filter that
  gives each tab its tasks;
- the task card's **duration text** (`"45 minutes"`, `"2 hours"`,
  `"1h 30m"`, `"1d 1h"`) and its **status presentation** (icon, badge
  variant, badge label).

Modules:

- `Wrappers` (`wrappers.dfy`): `Option`.
- `Decimal` (`decimal.dfy`): how a template literal writes an integral
  number (`${n}`), and reading the digits back.
- `Tasks` (`tasks.dfy`): the task record, its status enum, and the
  properties of the loader's query result (owned by one user, ordered by
  deadline) with the fact that a subsequence keeps both.
- `TasksRoute` (`tasks_route.dfy`): `app/routes/tasks._index.tsx`. The
  duration conversion is a method with a local variable updated in place, as
  in the source; the tab filter is a function over sequences.
- `TaskList` (`task_list.dfy`): `app/components/TaskList.tsx`. All pure
  functions. `FormatDuration` follows the source's own steps (hours first,
  then `hours < 24`, then `hours / 24` and `hours % 24`); `Describe` is an
  independent description by the thresholds 60 and 1440, and the contract
  of `FormatDuration` proves the two agree on every integer.

Modelling choices:

- Clerk's `userId` is an `Option<string>`. The source's guard is JavaScript's
  `!userId`, so an empty id is turned away like a missing one (`SignedIn`).
- The database calls are not modelled. The loader's query result is an input
  that is assumed to hold only the caller's tasks in ascending deadline order
  (`LoadedFor`). The create action returns the record it would pass to the
  database (`NewTask`) rather than writing it.
- `statusMap[key]` for a key other than the three yields `undefined`, or a
  property that every object inherits. Neither equals a status, so the model
  gives `None` and the tab is empty.
- Timestamps (the deadline) are integers. Only their order is used.

The duration conversion does not validate its input: a negative value is
stored as it is, and an unknown unit counts as minutes
(app/routes/tasks._index.tsx:47-52). `formatDuration` writes a negative
duration as `"-5 minutes"`.

## Model

| member | source | states |
|---|---|---|
| `TasksRoute.SignedIn` | app/routes/tasks._index.tsx:34-38 | the `!userId` guard lets a caller through exactly when the id is neither missing nor the empty string, the two falsy values it can take |
| `TasksRoute.Loader` | app/routes/tasks._index.tsx:19-32 | a caller who is not signed in (no id, or an empty id) is redirected; otherwise the page gets the query's list, all owned by the caller and in deadline order |
| `TasksRoute.UnitMinutes` | app/routes/tasks._index.tsx:47-52 | `hours` gives 60 minutes, `days` gives 1440, and every other unit string gives 1 (the value is kept as minutes) |
| `TasksRoute.NormalizeDuration` | app/routes/tasks._index.tsx:47-52 | `hours` gives value × 60, `days` gives value × 1440, and every other unit string gives the value unchanged, with no error; a non-negative value gives a non-negative duration |
| `TasksRoute.NormalizeMonotone` | app/routes/tasks._index.tsx:47-52 | for a fixed unit, normalisation never decreases as the value grows |
| `TasksRoute.NormalizeInjective` | app/routes/tasks._index.tsx:47-52 | for a fixed unit, two different values never normalise to the same number of minutes |
| `TasksRoute.CreateAction` | app/routes/tasks._index.tsx:34-65 | without a signed-in caller the action redirects and creates nothing; otherwise it creates one task owned by the caller, with the normalised duration and the submitted title, description and deadline |
| `TasksRoute.StatusForKey` | app/routes/tasks._index.tsx:84-88 | `statusMap` maps `not_started`, `ongoing` and `completed` to their own status, and gives no status for any other key |
| `TasksRoute.FilteredTasks` | app/routes/tasks._index.tsx:84-91 | a tab holds exactly the tasks whose status its key maps to, as a subsequence of the loaded list, so their relative order is kept |
| `TasksRoute.TabKeysCoverStatuses` | app/routes/tasks._index.tsx:84-88 | the three keys map to three different statuses, and every status has a key |
| `TasksRoute.UnknownKeyIsEmpty` | app/routes/tasks._index.tsx:90-91 | a key other than the three selects no task |
| `TasksRoute.TabsDisjoint` | app/routes/tasks._index.tsx:84-91 | no task appears on two different tabs |
| `TasksRoute.TabsPartition` | app/routes/tasks._index.tsx:124-145 | the three tabs together hold every loaded task exactly once (as multisets) |
| `TasksRoute.TabCountsSum` | app/routes/tasks._index.tsx:126-134 | the three counters shown on the tabs add up to the number of loaded tasks |
| `TasksRoute.TabKeepsLoaderOrder` | app/routes/tasks._index.tsx:25-29 | every tab of a loaded list holds only the caller's tasks and stays in ascending deadline order |
| `TaskList.StatusIconFor` | app/components/TaskList.tsx:18-27 | `COMPLETED` gets the check icon, `ONGOING` the clock, and every other string the circle |
| `TaskList.BadgeVariantFor` | app/components/TaskList.tsx:59-66 | `COMPLETED` gets `default`, `ONGOING` gets `secondary`, and every other string gets `outline` |
| `TaskList.IconMatchesBadge` | app/components/TaskList.tsx:52-66 | on every status string, the icon and the badge variant pick the same one of three classes |
| `TaskList.StatusPresentation` | app/components/TaskList.tsx:18-27 | the icon and badge variant of each of the three statuses, `NOT_STARTED` falling to the default case |
| `TaskList.ToLowerCase` | app/components/TaskList.tsx:68 | lower-casing keeps the length, leaves no capital letter, turns each capital into its small letter and keeps every other character |
| `TaskList.ToLowerCaseIdempotent` | app/components/TaskList.tsx:68 | lower-casing twice is lower-casing once |
| `TaskList.ReplaceFirst` | app/components/TaskList.tsx:68 | only the first occurrence of the pattern character is replaced; every other position is unchanged |
| `TaskList.ReplaceFirstCount` | app/components/TaskList.tsx:68 | if the pattern occurs, exactly one occurrence is swapped for the replacement; if not, the string is unchanged |
| `TaskList.BadgeLabel` | app/components/TaskList.tsx:68 | the label is as long as the status and has no capital letter; the first underscore becomes a space, each capital becomes its small letter, and every later underscore and every other character stays |
| `TaskList.LabelWithoutUnderscore` | app/components/TaskList.tsx:68 | a status without an underscore is labelled by its lower-cased self |
| `TaskList.NotStartedLabel` | app/components/TaskList.tsx:68 | `NOT_STARTED` is labelled `"not started"` |
| `TaskList.OngoingLabel` | app/components/TaskList.tsx:68 | `ONGOING` is labelled `"ongoing"` |
| `TaskList.CompletedLabel` | app/components/TaskList.tsx:68 | `COMPLETED` is labelled `"completed"` |
| `TaskList.OnlyFirstUnderscoreReplaced` | app/components/TaskList.tsx:68 | a second underscore stays: `"A_B_C"` is labelled `"a b_c"` |
| `TaskList.Describe` | app/components/TaskList.tsx:29-41 | under 60: the minutes themselves; 60 to 1439: whole hours (1..23) when divisible by 60, else hours 1..23 and minutes 1..59 that add back to the total; from 1440: days ≥ 1 and hours 0..23 that fall short of the total by less than an hour |
| `TaskList.DescribeApproximates` | app/components/TaskList.tsx:38-40 | the displayed quantity equals the duration below a day and otherwise drops less than 60 minutes |
| `TaskList.HoursThenDays` | app/components/TaskList.tsx:31-39 | the `hours < 24` test is the test `minutes < 1440`, and days and leftover hours taken from the hour count equal those taken from the minutes directly |
| `TaskList.FormatDuration` | app/components/TaskList.tsx:29-41 | `formatDuration` writes out, for every integer, exactly the shape and numbers that `Describe` selects by the thresholds 60 and 1440 |
| `TaskList.FormatDurationSample59` | app/components/TaskList.tsx:30 | 59 gives `"59 minutes"` |
| `TaskList.FormatDurationSample60` | app/components/TaskList.tsx:31-36 | 60 gives `"1 hours"` |
| `TaskList.FormatDurationSample90` | app/components/TaskList.tsx:31-36 | 90 gives `"1h 30m"` |
| `TaskList.FormatDurationSamplesDays` | app/components/TaskList.tsx:38-40 | 1440 gives `"1d 0h"` and 1500 gives `"1d 1h"` |
| `TaskList.MinutesShownAsIs` | app/components/TaskList.tsx:30 | a duration under 60 is written as its own number followed by `" minutes"` |
| `TaskList.WholeHoursRoundTrip` | app/components/TaskList.tsx:31-36 | 1 to 23 hours, stored as value × 60 by the create action, are written back as `"{v} hours"` |
| `TaskList.WholeDaysRoundTrip` | app/components/TaskList.tsx:38-40 | v ≥ 1 days, stored as value × 1440, are written back as `"{v}d 0h"` |
| `TaskList.RenderInjective` | app/components/TaskList.tsx:29-41 | two different display shapes or values are never written as the same text |
| `TaskList.FormatDurationExactBelowDay` | app/components/TaskList.tsx:29-36 | below 1440 minutes, equal texts mean equal durations: nothing is lost |
| `TaskList.FormatDurationToTheHour` | app/components/TaskList.tsx:38-40 | from 1440 minutes on, two durations get the same text exactly when they have the same number of whole hours |
| `Decimal.NatToString` | app/components/TaskList.tsx:30 | a natural number is written as one or more decimal digits, with no leading zero: a leading `0` occurs only in `"0"` itself |
| `Decimal.IntToString` | app/components/TaskList.tsx:30-40 | an integer is written with a leading `-` exactly when it is negative; the digits after the sign are non-empty, have no leading zero unless they are `0`, and read back as the absolute value |
| `Decimal.NatToStringRoundTrip` | app/components/TaskList.tsx:30 | reading the written digits back gives the number |
| `Decimal.IntToStringInjective` | app/components/TaskList.tsx:30 | different integers, signs included, are written differently |

## Left out

- The database (Prisma) calls are not modelled. The loader's query result is an input, assumed owned by the caller and ordered by deadline. The create action returns the record it would store; the store's own failures and generated fields (`id`, `createdAt`, `updatedAt`, the default status) are not modelled.
- Clerk's `getAuth` is not modelled; its result is the `userId` input.
- `parseInt` on the form field, and its `NaN` result for a non-numeric entry, are not modelled; the duration value is an integer input.
- JavaScript numbers are doubles. Integer precision above 2^53, the database column's integer width, and exponent notation when printing numbers of 10^21 and above are not modelled; durations are unbounded integers.
- `new Date(...)` for the deadline, the `parsedTasks` date conversions (app/routes/tasks._index.tsx:71-82) and the date-fns deadline text are not modelled: they depend on the host clock, time zone and library. The deadline is an integer timestamp, and the tab filter acts on the loaded tasks directly.
- TaskList.ToLowerCase: only ASCII letters are lower-cased, not the full Unicode mapping of `toLowerCase`; status strings are ASCII.
- The JSX rendering, the list/grid view toggle, the dialogs and the page layout are not modelled.
- Reminders, the edit, delete and status-toggle routes, and email delivery are not part of this model.
