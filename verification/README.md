# Nutrition follow-up app: verified model of its logic layer

The app is a single-user nutrition-coaching dashboard. A session keeps
everything in memory:

- a weight history, as (date, weight) rows;
- a daily-log table, one row per submitted day, with five meal-slot
  booleans (desayuno, colación 1, comida, colación 2, cena), a mood and a
  comment;
- a small profile (initial, current and goal weight, height, next
  appointment).

This project models the logic between the forms and the charts:

- the streak of consecutive complete days;
- the 7-day adherence percentage and the message it selects;
- the goal-progress figure;
- saving a day's log, replacing any earlier row of that date;
- keeping today's row of the weight history in step with the current weight;
- the "Hoy" / "Últimos 7 días" views;
- the data a new session is seeded with.

Modelling choices:

- A table is a sequence of `Row(date, value)`.
- A date is a day number, so "one day earlier" is `d - 1`.
- "Today" and the current time of day are parameters.
- Weights, ratios and means are exact reals.
- The session state is the class `Session.Session`.

Modules, one per part of the app:

- `Tables` (`tables.dfy`): sorting by date, the row filters, the distinct dates of a table.
- `DailyLogs` (`daily_logs.dfy`): the log row, slot counting, the seeded logs and the two views.
- `Streak` (`streak.dfy`): `calculate_streak`.
- `Adherence` (`adherence.dfy`): the progress page's ratio, grouping, window, percentage and message.
- `Dashboard` (`dashboard.dfy`): the goal-progress clamp.
- `Session` (`session.dfy`): session start-up, the weight sync and the daily-log save.
- `SeededLogs` (`seeded.dfy`): what the seeded logs show on the dashboard and the progress page.
- `Wrappers` (`wrappers.dfy`): `Option`.

Where the code and the written description of the app differ, the model follows the code:

- The adherence window keeps every grouped date from `today - 6` on and has no upper bound, so rows dated after today stay in it.
- When today's weight row already exists, the weight sync overwrites it in place and does not re-sort the table. Only the append case sorts.
- The "Últimos 7 días" view keeps dates from `today - 7` on. That is one day more than the adherence window (`ViewCoversWindow`).

## Model

| member | source | states |
|---|---|---|
| Tables.SortByDate | app.py:275 | sorting by date returns a permutation of the table (same rows, same multiplicities) ascending by date |
| Tables.HasDate | app.py:207 | the membership test is true exactly when some row carries the date |
| Tables.WithoutDate | app.py:609 | dropping a date keeps every row of other dates as often as it occurred and no row of that date |
| Tables.Since | app.py:686 | the date filter keeps exactly the rows dated on or after the bound, each as often as it occurred |
| Tables.OnDate | app.py:634 | the "Hoy" filter keeps exactly the rows of the date, each as often as it occurred |
| Tables.DistinctDates | app.py:284 | the distinct dates of a table, strictly ascending, are exactly the dates that occur in it |
| Tables.SortSortedIsIdentity | app.py:614 | sorting a table that is already sorted by date changes nothing |
| Tables.SortAppend | app.py:210-215 | sorting a table with a row appended is inserting the row into the sorted table |
| Tables.InsertKeyed | app.py:210-215 | inserting a row with a new date into a table keyed by date keeps it keyed by date |
| Tables.WithoutDateKeyed | app.py:609 | dropping a date from a table keyed by date leaves it keyed by date |
| DailyLogs.SlotCount | app.py:674 | the count of met slots is in 0..5; it is 5 exactly when the day is complete and 0 exactly when no slot was met |
| DailyLogs.SeedEntry | app.py:184-195 | a seeded entry with `cumplidas` met slots has exactly the first `cumplidas` slots met, mood "Bien" and the seed comment |
| DailyLogs.SeedDailyLogs | app.py:179-198 | the seeded logs are seven rows, one per day ending today, ascending and keyed by date, the day `i` days back having `5 - i % 3` met slots |
| DailyLogs.ViewRows | app.py:633-637 | "Hoy" shows exactly the rows dated today; "Últimos 7 días" shows exactly the rows dated `today - 7` or later |
| Streak.CompleteRows | app.py:277-280 | the rows kept are exactly the rows with all five slots met |
| Streak.CompleteRowsOfSorted | app.py:275-280 | sorting before selecting the complete rows does not change the set of complete dates |
| Streak.DatesLatestFirst | app.py:284 | the complete dates latest first are strictly descending and are exactly the dates of the table |
| Streak.MaxDate | app.py:284-286 | the latest date of a non-empty set of dates (where the walk starts) belongs to the set and is no earlier than any of its dates |
| Streak.WalkStopsAtRunEnd | app.py:285-295 | when the backward walk stops after `i` matches, the first date is the latest complete date and `i` is the length of the run of complete days ending there |
| Streak.CalculateStreak | app.py:270-295 | the streak is 0 when no day is complete; otherwise it is k ≥ 1 with the k days ending at the latest complete day all complete and the day before them not complete, whatever today is |
| Streak.RunsBackUnique | app.py:285-295 | the run length from a given day is unique, so the streak is determined by the set of complete dates |
| Streak.IncompleteRowIgnored | app.py:277-280 | adding a row with a missed slot does not change the complete dates |
| Streak.DuplicateRowIgnored | app.py:284 | adding a second copy of a row does not change the complete dates |
| Streak.ThreeDayExample | app.py:270-295 | complete on days 3, 4 and 5 and partial on day 2: the latest complete day is 5 and its run is 3 days |
| Adherence.Ratio | app.py:674 | a row's ratio lies in [0, 1]; it is 1 exactly when the day is complete and 0 exactly when no slot was met |
| Adherence.ThreeOfFive | app.py:674 | three met slots are a ratio of 0.6 |
| Adherence.Mean | app.py:699 | the mean of values in [0, 1] lies in [0, 1] |
| Adherence.DayMean | app.py:677-681 | the mean ratio of one date's rows lies in [0, 1] |
| Adherence.Summary | app.py:677-682 | the grouped table has one row per distinct date of the logs, ascending, each holding that date's mean ratio, in [0, 1] |
| Adherence.Window | app.py:684-686 | the window keeps exactly the grouped rows dated `today - 6` or later, with no upper bound, and stays keyed by date |
| Adherence.Percent | app.py:699-700 | the percentage is absent exactly for an empty list and lies in [0, 100] for ratios in [0, 1] |
| Adherence.AdherencePct | app.py:663-700 | no percentage (the notice instead) exactly when no row is dated `today - 6` or later, the empty table included; otherwise a value in [0, 100] |
| Adherence.MessageFor | app.py:716-723 | exactly one of the four messages is chosen, by the bands ≥ 80, [60, 80), [40, 60) and < 40 |
| Adherence.MessageMonotone | app.py:716-723 | a higher percentage never gets a worse message |
| Adherence.SummaryOfKeyed | app.py:677-682 | with one row per date, the grouped table is the per-row (date, ratio) table |
| Adherence.KeyedWindowValues | app.py:677-686 | with one row per date, the window's grouped ratios are the ratios of the rows dated `today - 6` or later |
| Adherence.AdherenceOfKeyed | app.py:674-700 | with one row per date, the percentage is 100 times the mean ratio of the rows dated `today - 6` or later, and absent when there are none |
| Adherence.ViewCoversWindow | app.py:636-637 | the "Últimos 7 días" view shows the rows of the adherence window plus the rows dated `today - 7` |
| Dashboard.Clamp01 | app.py:407 | the clamp lies in [0, 1], is 0 at or below 0, 1 at or above 1, and the identity in between |
| Dashboard.ProgressPct | app.py:400-407 | the progress lies in [0, 1] and is 0 when the initial weight equals the goal |
| Dashboard.LossProgress | app.py:403-404 | for a loss goal: 1 at or below the goal, 0 at or above the initial weight, strictly between 0 and 1 in between, where it is the share of the planned loss achieved |
| Dashboard.GainProgress | app.py:405-406 | for a gain goal: 1 at or above the goal, 0 at or below the initial weight, strictly between 0 and 1 in between, where it is the share of the planned gain achieved |
| Dashboard.ProgressMirror | app.py:402-406 | negating all three weights turns a gain goal into a loss goal with the same progress |
| Dashboard.LossProgressMonotone | app.py:403-407 | for a loss goal, a lower current weight never shows less progress |
| Session.SeedWeights | app.py:166-176 | the seeded weight history has ten rows, one per day ending today, ascending, from the initial to the current weight in equal steps |
| Session.Session.constructor | app.py:140-198 | a new session is logged out with the default profile, an appointment a week from today at the current time, the seeded weight history and the seeded logs, both keyed by date |
| Session.Session.SyncWeightWithToday | app.py:201-216 | with rows dated today: each such row gets the current weight where it stands and nothing else changes; without: a row (today, current weight) is added and the table is sorted; either way today's rows carry the current weight, other dates' rows are kept, and a sorted or keyed table stays so |
| Session.OverwriteFacts | app.py:207-208 | overwriting in place leaves (today, weight) in the table, gives today's rows that weight, keeps other rows and keeps the order of dates |
| Session.AddedRowFacts | app.py:209-215 | after appending and sorting, the table holds exactly the old rows and the new one |
| Session.AddKeepsKeyed | app.py:209-215 | appending a row of a new date and sorting keeps a table keyed by date |
| Session.Session.SaveDailyLog | app.py:596-616 | after saving, the table is sorted by date, the new record is the only row of its date and occurs once, and every row of another date is kept as often as before; a keyed table stays keyed |
| Session.ReplacedDay | app.py:608-614 | a table made of the rows of other dates plus the record has the record as its only row of that date, once, and keeps the other dates' rows |
| Session.SaveKeepsKeyed | app.py:608-614 | saving a record into a table keyed by date keeps it keyed by date |
| Session.SavedDayView | app.py:608-634 | after saving a record, the "Hoy" view on its date shows that record alone |
| SeededLogs.SeedKeyed | app.py:179-198 | the seeded logs are keyed by date |
| SeededLogs.SeedCompleteDates | app.py:181-185 | the complete seeded days are today, three days ago and six days ago |
| SeededLogs.SeedStreak | app.py:181-185 | the seeded logs give a streak of 1 from today |
| SeededLogs.SeedRatios | app.py:184 | the seeded ratios, oldest first, are 1, 0.6, 0.8, 1, 0.6, 0.8, 1 |
| SeededLogs.SeedAdherence | app.py:184 | the seeded 7-day adherence is 580/7 percent, which selects the best message |

## Left out

- Rendering is not modelled: the page layout, CSS, cards, charts, forms, the sidebar, the navigation radio and reruns. The form inputs become method parameters.
- Login and logout are not modelled: the hardcoded credential comparison (app.py:350) and the logout reset. The model only has the logged-out start.
- The sidebar's number inputs are left out (app.py:842-880). Their ranges (30 to 300 kg, 1.20 to 2.10 m) bound the profile values. `Dashboard.ProgressPct` is stated for every real instead.
- The BMI (app.py:399) and every formatted or rounded percentage are left out: they are display-only.
- The static diet-plan table and its day filter (app.py:219-267), and the contact page, are left out: they are constant data.
- Clock reads are parameters: `date.today()` becomes `today`, and the appointment time becomes a minute-of-day parameter.
- Float arithmetic is modelled as exact `real` arithmetic. This covers the ratios, means, weights and the progress fraction.
- Session.SeedWeights: the weights are exact interpolation points. The `round(…, 1)` is not modelled, and neither is the never-taken `steps = 1` branch for a one-day history.
- Session.Session.SyncWeightWithToday: in the append case it promises "sorted by date, same rows plus the new one", not a row order. pandas' default sort is not stable, so the order of rows that share a date is unspecified. `Tables.SortByDate` itself is a stable insertion sort.
- Session.Session.SaveDailyLog: it promises "sorted by date" and the row multiset, not a row order, for the same reason.
- Session.Session.constructor: it models the first run only. Every later run finds all the keys present and changes nothing.
- Data-frame column types and the conversions done at app.py:670-671 are not modelled. The meal slots are booleans and the slot count is an integer in 0..5.
