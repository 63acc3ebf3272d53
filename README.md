# Productivity desktop app: verified model of its logic

This project is a Dafny model of the non-widget logic of a small wxPython
productivity application. It covers four parts:

- **The focus timer** (`timer.py`). This is a one-second countdown with start,
  pause and reset buttons, an `mm:ss` label and a progress gauge.
- **The emotional tracker** (`emotional_tracker.py`). It saves a mood entry for
  the day. Its analysis dialog shows the last days' entries as a pie chart of
  mood counts and as a table whose rating column is coloured in three tiers.
- **The database gateway** (`database.py`). It holds the `tasks` and
  `emotional_entries` tables. Here they are held in memory, with the SQLite
  `AUTOINCREMENT` counter made explicit and each SQL statement given its
  meaning (filters, inclusive `BETWEEN`, `ORDER BY` under the BINARY
  collation).
- **The task workflow** (`tasks.py`) and the calendar page's day list
  (`gui.py`). This covers title validation, adding, listing with an
  index-to-id mapping, the edit dialog's due-date parsing, full-replace save,
  confirm-gated delete, and the per-day list with its header.

The files:

- `wrappers.dfy`: `Option`.
- `decimal.dfy`: decimal digit strings. This means Python's `str(n)`,
  `f"{n:02d}"` and zero-padded fields.
- `text.dfy`: Python's `str.isspace`, `strip`, `split` on one character, a
  restricted `int()`, and SQLite's BINARY string order.
- `calendar.dfy`: Gregorian dates and stepping back by days. It also holds the
  RFC 3339 `full-date` text, with a proof that its text order is date order
  (section 5.1 of RFC 3339).
- `query.dfy`: the `WHERE` filter and a stable sort by a string key, ascending
  or descending.
- `timer.dfy`, `database.dfy`, `emotional_tracker.dfy`, `tasks.dfy`, `gui.dfy`:
  one module per source file.

**How each file is modelled**

- **Pure logic and classes.** Where the source updates object fields, the
  model is a Dafny `class` with those fields.
  - The timer's handlers are proved equal to pure step functions on a
    `TimerState` value (`State() == Start(old(State()), …)`). The timer's
    properties are lemmas about those steps and about `Run`, the state after
    `n` ticks.
  - The loops that fill lists become `while` loops with invariants: the mood
    count, the table rows, the task list and the per-day list.
- **Parameters for the outside world.**
  - Widget values (spinners, text fields, the combo box, the slider, the date
    pickers, the list selection) are fields or parameters.
  - Answers to confirmation boxes are parameters.
  - The current date is a parameter, and so is the `CURRENT_TIMESTAMP` text.
- **Signals instead of side effects.** Message boxes and the alarm are
  recorded as a sequence of signals or notices.

**Where the model follows the code**

- **Reset keeps the total.** `on_reset` reloads `remaining_time` but never
  assigns `total_time` (timer.py:164-177). The model follows that code, not a
  reading in which a reset also reconfigures the total. Its consequences are
  proved:
  - `FocusTimer.ResetThenStartUsesStaleTotal`: a reset to a longer duration
    followed by a start computes a progress of -100.
  - `FocusTimer.ResetBeforeFirstStartFreezesGauge`: a reset before the first
    start leaves the gauge frozen at 0.

## Model

| member | source | states |
|---|---|---|
| FocusTimer.Duration | timer.py:71-80 | The spinners' duration `minutes*60+seconds` is at most 10859 (180:59) and is 0 exactly when both spinners are 0 |
| FocusTimer.StepsKeepInv | timer.py:141-187 | Every handler keeps the panel invariant: the one-second timer ticks exactly while `is_running`, and both times stay within 10859 |
| FocusTimer.StartResumesOrReconfigures | timer.py:141-146 | With time remaining, a start keeps `remaining_time` and `total_time`. With none, it sets both to the spinners' duration |
| FocusTimer.StartRejectsZero | timer.py:152-158 | A zero duration signals the error, leaves `is_running` and the ticking untouched, and starts nothing. Otherwise the timer runs with time remaining |
| FocusTimer.PauseKeepsTime | timer.py:160-162 | A pause stops running and ticking and keeps both the remaining and the total time |
| FocusTimer.PauseThenStartResumes | timer.py:141-162 | Pausing then starting resumes from the paused remaining time, whatever the spinners say |
| FocusTimer.ResetKeepsTotal | timer.py:164-177 | A reset stops the timer, reloads the remaining time from the spinners, shows it, zeroes the gauge, and leaves `total_time` unchanged |
| FocusTimer.OnlyStartSetsTotal | timer.py:141-187 | `total_time` is changed only by a start that finds no time remaining |
| FocusTimer.TickEffect | timer.py:181-187 | A tick while running with time left shows the current value, then decrements by exactly 1. Any other tick stops, zeroes, sets the gauge to 100 and signals the alarm and the notice |
| FocusTimer.CountdownTick | timer.py:181-184 | A counting-down tick keeps running, total and signals, shows the current value and decrements by one |
| FocusTimer.RunPrefix | timer.py:181-184 | The first `n <= T` ticks from `T` leave `T-n` remaining, still running, with no signal |
| FocusTimer.ShownPrefix | timer.py:181-184 | The first `n <= T` ticks display `T, T-1, …, T-n+1`, one per tick |
| FocusTimer.ShownIsCountdown | timer.py:181-184 | While running, the texts shown by the first `n <= T` ticks are exactly the countdown from `T` |
| FocusTimer.CountdownTexts | timer.py:189-192 | The countdown from `T` over `n` ticks holds `n` texts, the `i`-th being the clock text of `T - i` |
| FocusTimer.RunShowsCountdown | timer.py:181-192 | An uninterrupted run from `T > 0` displays exactly `T, …, 1` and never "00:00" |
| FocusTimer.RunCompletes | timer.py:181-224 | Completion happens on tick `T+1` and only then: stopped, remaining 0, gauge 100, "00:01" still displayed, alarm and notice signalled once |
| FocusTimer.ClockTextRoundTrip | timer.py:189-192 | The `mm:ss` label parses back to the seconds shown: zero-padded minutes, two-digit seconds below 60 |
| FocusTimer.ClockTextZero | timer.py:189-192 | The label reads "00:00" exactly when 0 seconds are shown |
| FocusTimer.ProgressBounds | timer.py:194-197 | For `0 <= s <= total`, progress lies in 0..100, is the floor of the exact percentage, is 0 at `s == total` and 100 at `s == 0` |
| FocusTimer.ProgressMonotone | timer.py:194-197 | Less time remaining never shows less progress |
| FocusTimer.ShowTime | timer.py:189-197 | `update_display` sets the label to the clock text, and moves the gauge only when `total_time > 0` |
| FocusTimer.ResetThenStartUsesStaleTotal | timer.py:141-197 | From 1:00, a reset to 2:00 then a start resumes against the stale total of 60, and the first tick computes progress -100 |
| FocusTimer.ResetBeforeFirstStartFreezesGauge | timer.py:141-197 | A reset before the first start leaves `total_time` 0, so the gauge stays at 0 throughout the countdown |
| FocusTimer.TimerPanel.constructor | timer.py:18-38 | Not running, both times 0, label "25:00" |
| FocusTimer.TimerPanel.OnStart | timer.py:141-158 | The field updates equal the `Start` step and keep the invariant |
| FocusTimer.TimerPanel.OnPause | timer.py:160-162 | The field updates equal the `Pause` step |
| FocusTimer.TimerPanel.OnReset | timer.py:164-177 | The field updates equal the `Reset` step |
| FocusTimer.TimerPanel.RunTimer | timer.py:181-187 | The field updates equal the `Tick` step |
| FocusTimer.TimerPanel.UpdateDisplay | timer.py:189-197 | Sets the label and, when a total is configured, the gauge, as `ShowTime` |
| FocusTimer.TimerPanel.TimerComplete | timer.py:210-224 | Stops, zeroes, resets the label, sets the gauge to 100 and records the alarm and the notice with the description |
| Decimal.NatToStringValue | timer.py:192 | `str(n)` is all digits, denotes `n`, has no leading zero and is one character exactly when `n < 10` |
| Decimal.TwoDigitsValue | timer.py:192 | `f"{n:02d}"` is all digits, denotes `n` and has exactly two characters exactly when `n < 100` |
| Decimal.IntToStringValue | emotional_tracker.py:216 | `str(rating)` denotes the rating, with a leading '-' for negatives |
| Decimal.PaddedValue | database.py:99 | A zero-padded `strftime` field denotes its number |
| Decimal.PaddedInjective | database.py:99 | Distinct numbers give distinct zero-padded fields of the same width |
| Text.StripSlice | tasks.py:117-118 | `strip()` keeps one contiguous slice of the input, everything removed is white space, and the kept text neither starts nor ends with white space |
| Text.StripEmptyIff | tasks.py:117-121 | The stripped title is empty exactly when the input is all white space |
| Text.StripIdempotent | tasks.py:117 | Stripping a stripped text changes nothing |
| Text.SplitJoin | tasks.py:226 | Joining the pieces of `split('-')` with '-' restores the text |
| Text.JoinSplit | tasks.py:226 | Splitting a '-'-join of '-'-free pieces gives back the pieces |
| Text.ParsePadded | tasks.py:226 | `int()` of a zero-padded field gives its number |
| Text.ParseNatString | emotional_tracker.py:216 | `int(str(n)) == n` for `n >= 0` |
| Text.StrLeTotal | database.py:57 | The BINARY collation is total |
| Text.StrLeAntisym | database.py:57 | The BINARY collation is antisymmetric |
| Text.StrLeTrans | database.py:57 | The BINARY collation is transitive |
| Text.StrLeConcat | database.py:111 | Comparing texts with equal-length first parts compares the first parts, then the rest |
| Text.PaddedOrder | database.py:111 | Zero-padded fields of one width compare as text exactly as their numbers compare |
| Calendar.DaysInMonth | tasks.py:228-229 | Month lengths are 28..31, with 29 exactly for February of a Gregorian leap year |
| Calendar.PrevDay | database.py:120 | The day before a date is a date and precedes it; the year drops only from 1 January |
| Calendar.PrevDayAdjacent | database.py:120 | No date lies strictly between a date and the day before it |
| Calendar.MinusDaysMonotone | database.py:120 | Going back more days gives a strictly earlier date |
| Calendar.MinusDaysValid | database.py:120 | If the start of the window is a valid date, so is every date in it |
| Calendar.WindowMembers | database.py:118-121 | A date lies in `[today - n, today]` exactly when it is `today - k` for some `0 <= k <= n` |
| Calendar.WindowDistinct | database.py:118-121 | The dates `today - k`, `0 <= k <= n`, are pairwise distinct, so the window holds `n + 1` dates |
| Calendar.FullDate | database.py:99 | `strftime("%Y-%m-%d")` is ten characters with '-' at positions 4 and 7 |
| Calendar.FullDateOrder | database.py:107-121 | Full-date text order is chronological order, and equal texts are equal dates (section 5.1 of RFC 3339) |
| Calendar.FullDateLe | database.py:107-121 | For valid dates, the full-date text of `a` sorts at or before that of `b` exactly when `a` is not after `b` |
| Calendar.FullDateEqual | database.py:62-65 | Two valid dates have the same full-date text exactly when they are the same date |
| Query.Filter | database.py:62-68 | A `WHERE` keeps exactly the rows satisfying the condition, drawn from the table |
| Query.FilterMultiset | database.py:107-116 | A `WHERE` keeps each matching row as often as stored and drops the others |
| Query.SortBy | database.py:54-60 | `ORDER BY` returns a permutation of its input |
| Query.SortBySorted | database.py:54-68 | `ORDER BY` returns the rows in key order, ascending or `DESC` |
| Query.InsertSorted | database.py:57 | Inserting a row into a sorted result keeps it sorted |
| Store.FindTask | database.py:87-93 | `get_task` returns a row with that id that is in the table, or None exactly when no row has the id |
| Store.FindMember | database.py:87-93 | With unique ids, looking up a stored row's id returns that row |
| Store.UpdateRowsEffect | database.py:70-78 | `update_task` replaces all four fields of the row with the id, keeps its id and `created_at`, and leaves every other row unchanged |
| Store.UpdateMissingIsNoop | database.py:70-78 | `update_task` on an absent id changes nothing and creates no row |
| Store.UpdateThenFind | database.py:70-93 | Reading a row back after updating it gives the replaced row; an absent id stays absent |
| Store.DeleteRowsEffect | database.py:80-85 | `delete_task` removes exactly the rows with the id, leaves none with it, and is a no-op on an absent id |
| Store.DeleteKeepsAscending | database.py:80-85 | Deleting keeps the ids increasing and within the counter |
| Store.AllTasksSpec | database.py:54-60 | `get_all_tasks` returns every row once, due date non-increasing |
| Store.TasksByDateSpec | database.py:62-68 | `get_tasks_by_date(d)` returns exactly the rows due on `d`, each as often as stored, ordered by `created_at` non-decreasing |
| Store.EntriesBetweenSpec | database.py:107-116 | `get_emotional_entries(s, e)` returns exactly the entries with `s <= date <= e` (both ends included), ascending by date |
| Store.RecentWindowExact | database.py:118-121 | The recent-entries query selects an entry exactly when its date is one of the `days + 1` dates `today - k`, `0 <= k <= days` |
| Store.DatabaseManager.constructor | database.py:10-39 | Both tables start empty with their counters at 0 |
| Store.DatabaseManager.AddTask | database.py:42-52 | Appends exactly one row with the given fields, `completed = 0` and the creation time. The returned id is the counter plus one and exceeds every earlier id |
| Store.DatabaseManager.GetAllTasks | database.py:54-60 | Returns the `ORDER BY due_date DESC` result |
| Store.DatabaseManager.GetTasksByDate | database.py:62-68 | Returns the filtered, `created_at`-ordered result |
| Store.DatabaseManager.UpdateTask | database.py:70-78 | The table becomes `UpdateRows` of the old one. The counters and the other table are unchanged |
| Store.DatabaseManager.DeleteTask | database.py:80-85 | The table becomes `DeleteRows` of the old one. The counters and the other table are unchanged |
| Store.DatabaseManager.GetTask | database.py:87-93 | Returns `FindTask` of the table |
| Store.DatabaseManager.AddEmotionalEntry | database.py:96-105 | Appends one entry dated today's full-date with the given mood, rating, notes and the next id |
| Store.DatabaseManager.GetEmotionalEntries | database.py:107-116 | Returns the `BETWEEN` result in date order |
| Store.DatabaseManager.GetRecentEmotionalEntries | database.py:118-121 | Queries from `today - days` to `today` as full-dates, with `days` defaulting to 7 |
| MoodTracker.TierPartition | emotional_tracker.py:220-226 | Green for 8 and above, orange for 5..7, red for 4 and below. A higher rating is never in a lower tier |
| MoodTracker.LabelsSpec | emotional_tracker.py:183-190 | The pie labels are distinct and are exactly the moods that occur |
| MoodTracker.CountAppend | emotional_tracker.py:183-186 | One more mood adds one to that mood's count and leaves every other count unchanged |
| MoodTracker.TallyTotals | emotional_tracker.py:183-191 | Every count is at least 1, the counts add up to the number of entries, and entries always give some label |
| MoodTracker.SumSizes | emotional_tracker.py:183-191 | The counts add up to the number of entries |
| MoodTracker.KeyIndex | emotional_tracker.py:186 | The dict lookup finds the key's position, or reports the key absent |
| MoodTracker.TallyMoods | emotional_tracker.py:183-191 | The counting loop yields the moods in first-occurrence order, each with its number of occurrences |
| MoodTracker.TableRows | emotional_tracker.py:209-218 | The table loop gives exactly one row per entry, in entry order |
| MoodTracker.RowFaithful | emotional_tracker.py:209-218 | A row shows its entry's date and mood, a rating cell that reads back as the rating, and a notes cell that is the note or "" for NULL |
| MoodTracker.ChartCases | emotional_tracker.py:173-204 | The figure shows "No data" exactly when there are no entries. The "No mood data" branch is never taken, and the pie's sizes sum to the number of entries |
| MoodTracker.AnalysisDialog.constructor | emotional_tracker.py:106-111 | Opening the dialog loads the entries of the five dates from four days ago through today (the dialog's "Last 4 Days") |
| MoodTracker.AnalysisDialog.LoadData | emotional_tracker.py:165-226 | Queries the five dates from four days ago through today. No entries gives "No data" and an empty table. Otherwise it gives the pie of the counts and one row per entry |
| MoodTracker.EmotionalTracker.constructor | emotional_tracker.py:32-45 | Mood unselected, slider at 5, no notes |
| MoodTracker.EmotionalTracker.OnSaveEntry | emotional_tracker.py:83-97 | An empty mood signals an error and stores nothing. Otherwise exactly one entry is added with a mood from the eight choices and a rating in 1..10, and the form resets to "", 5, "" |
| TaskWorkflow.ItemTextMark | tasks.py:136-137 | A list item starts with ✅ exactly when the task is completed and shows the title after the mark |
| TaskWorkflow.ListedTasksResolve | tasks.py:132-141 | The id stored with each listed item looks up the very task the item shows |
| TaskWorkflow.PickerDate | tasks.py:214-236 | The picker always ends up on a valid calendar date |
| TaskWorkflow.PickerDateSpec | tasks.py:223-236 | Any date other than "now" comes from three '-'-separated integers naming that date. An empty due date gives "now" |
| TaskWorkflow.FullDateSplit | tasks.py:226 | Splitting a stored full-date on '-' gives its three zero-padded fields |
| TaskWorkflow.PickerDateRoundTrip | tasks.py:226-230 | A due date written by the form reads back into the picker as the same date |
| TaskWorkflow.AddedTaskSavesUnchanged | tasks.py:291-302 | Opening a task added from the form and saving it unchanged rewrites the row identically |
| TaskWorkflow.TaskManager.constructor | tasks.py:33-113 | The page starts with empty title and description inputs and the picker on today. The list is built as `refresh_tasks` builds it: item i shows task i of `get_all_tasks` and carries its id |
| TaskWorkflow.TaskManager.OnAddTask | tasks.py:116-130 | A blank title signals an error and changes nothing. Otherwise exactly one task is added with the stripped title and description and the picker's full-date, and both inputs are cleared |
| TaskWorkflow.TaskManager.RefreshTasks | tasks.py:132-141 | The list is rebuilt with one item per task of `get_all_tasks`, in order. Item i shows task i and carries its id |
| TaskWorkflow.TaskManager.OnTaskSelected | tasks.py:143-151 | No selection opens nothing. Otherwise the dialog opens on the selected item's id, if it has one |
| TaskWorkflow.TaskManager.AfterEdit | tasks.py:152-155 | The list is rebuilt only when the dialog ended with OK. Then item i shows task i of `get_all_tasks` and carries its id, so every item can be selected again. After CANCEL the list is untouched |
| TaskWorkflow.EditTaskDialog.constructor | tasks.py:159-243 | The dialog shows the stored title, description, parsed due date and completed flag |
| TaskWorkflow.EditTaskDialog.OnSave | tasks.py:291-302 | A blank title signals an error and keeps the dialog open. Otherwise all four fields are replaced, completed is encoded 1/0, and the dialog ends with OK |
| TaskWorkflow.EditTaskDialog.OnDelete | tasks.py:304-309 | Only a "Yes" deletes the task and ends the dialog with OK |
| TaskWorkflow.EditTaskDialog.OnCancel | tasks.py:274 | Cancel ends the dialog without touching the database |
| CalendarPage.DayLineSpec | gui.py:151-152 | A line begins with ✅ exactly when the task is completed (⭕ otherwise) and ends with its title |
| CalendarPage.DayListingSpec | gui.py:144-152 | The list has one line per task in query order. It is the lone "No tasks for this date" line exactly when no task is due |
| CalendarPage.HeaderNamesDate | gui.py:154 | The header embeds the queried date |
| CalendarPage.PickedDayShowsItsTasks | gui.py:139-144 | Picking a day lists a task exactly when it is stored with that day's full-date as its due date |
| CalendarPage.DayLines | gui.py:147-152 | The filling loop produces the day listing |
| CalendarPage.MainFrame.constructor | gui.py:133 | The page opens on today's tasks |
| CalendarPage.MainFrame.OnDateSelected | gui.py:139-141 | A picked day is listed under its full-date |
| CalendarPage.MainFrame.UpdateTasksForDate | gui.py:143-154 | The list is replaced, never appended to, by the day listing of `get_tasks_by_date(date)`, and the header becomes "Tasks for <date>:" |

## Left out

- Widget construction, layout, fonts, colours and page switching are left
  out; they are presentation only. So are the pie's colours and percentage
  labels, and the matplotlib and wx drawing calls. The model records which
  branch is taken and the chart's labels and sizes.
- `play_alarm` (winsound beeps or `wx.Bell`) and every `wx.MessageBox` appear
  only as signals or notices. The user's answer to a confirmation box is a
  parameter.
- The theme settings, the HTTP client, the application bootstrap and the
  event loop are not part of this model.
- SQLite is modelled by its meaning over in-memory tables: no connections,
  no files, no transactions. `init_database` on an existing file is not
  modelled; the tables start empty.
- `datetime.now()` and `CURRENT_TIMESTAMP` are parameters (`today`, `now`).
  `wx.DateTime.Now()` is the `today` parameter.
- `FocusTimer.Progress`: computes `int(((total - s) / total) * 100)` exactly
  on rationals. Python's double-precision arithmetic can give one less (for
  example total 100, s 71), and that rounding is not modelled.
- `wx.Gauge.SetValue` with a value outside 0..100 is recorded as given
  (-100 in `ResetThenStartUsesStaleTotal`). What wx does with it is not
  modelled.
- `Store.AllTasks`, `Store.TasksByDate`, `Store.EntriesBetween`: rows with
  equal sort keys come out in table order in the model. SQL leaves that order
  unspecified, and no lemma depends on it; the lemmas state only
  "permutation (or exact filter) and sorted".
- `Store.DatabaseManager.GetRecentEmotionalEntries`: `days` is a `nat` and the
  window's first day must be a valid date (year 1 or later). Python's
  `timedelta` with a negative `days`, or a window reaching before year 1
  (which raises `OverflowError`), is not modelled.
- `Calendar.FullDate`: defined for years 1..9999, where `%Y` gives four
  digits. Dates outside that range are not produced in the model.
- `Text.ParseInt`: models Python's `int()` on ASCII digits with surrounding
  white space and an optional '+'. Underscores between digits and non-ASCII
  digits, which Python also accepts, are not modelled. A '-' sign cannot
  occur, because the text has already been split on '-'.
- `TaskWorkflow.PickerDate`: the date check is the proleptic Gregorian one for
  years 1..9999. It passes `month - 1` to wx, and a month outside 1..12 is
  treated like any other invalid date. wx's debug-build assertion on an
  out-of-range month or day, and wx's acceptance of years outside 1..9999,
  are not modelled.
- `TaskWorkflow.EditTaskDialog.constructor`: requires the task to exist. The
  source reads `self.task[1]` of a `None` result and would raise; that crash
  is not modelled.
- `TaskWorkflow.TaskManager.OnTaskSelected`: the modal loop between opening
  and closing the dialog is the user's interaction with `EditTaskDialog`
  (`OnSave`, `OnDelete`, `OnCancel`). `AfterEdit` models what happens once it
  ends. The `None` client-data branch is modelled. The constructor,
  `RefreshTasks` and `AfterEdit` all ensure an id on every item, so that
  branch is never taken.
- `MoodTracker.AnalysisDialog.LoadData`: the "No mood data" branch is
  modelled. `ChartCases` proves it is never taken.
- Description NULLs: task descriptions are strings in the model. The
  application always stores a (stripped) string, so `self.task[2] or ""` is
  the identity there.
