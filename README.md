# Small command-line tools: a verified model

This project is a Dafny model of the core logic of five small Python
command-line tools. It proves properties of that model.

- **Expense tracker** (`ExpenseTracker`, `expense_tracker.dfy`). The in-memory
  JSON document `{"id_counter": {"counter", "available_ids"}, "items": {...}}`
  is bootstrapped to counter 1 with an empty pool and no items. The `Expense`
  class holds the counter and the recycle pool as class-level fields, with the
  pool shared with the document. `add_expense_record` allocates an id: the head
  of the pool, or else the counter, which then increments. It stores the entry
  under `str(id)` and rewrites the document. `delete` returns an id to the pool
  and sorts the pool. The three field validators are modelled on values that
  are already parsed.
- **Task tracker** (`TaskTracker`, `task_tracker.dfy`). These are the `Task`
  checks, the all-or-nothing setters with their rollback, and the ordered
  `TaskList`: append, first-match lookup, first-match removal, and the status
  filter of the `list` command.
- **Countdown timer and stopwatch** (`Tick`, `tick_timer.dfy`). These are the
  decrement step of one second, the per-set loop, and the reset of the working
  values after each set. They also cover rests only between sets, the
  stopwatch's roll-over at 60, and the four range validators. What the timer
  prints is a trace of events.
- **Repeat timer** (`RepeatTimer`, `repeat_timer.dfy`). This is
  `count_the_timer` with its nested `rep` × `time` loops and the rest rule. It
  also covers `validate_time_input` and the choice `main` makes between the
  three forms of the call.
- **GitHub activity viewer** (`GithubActivity`, `github_activity.dfy`). This is
  the decision logic of `validate_user_name`, and `reformat_date` as the first
  match of its pattern; the pattern is read as ASCII-only and the model states
  when that match exists. `Separators` holds the pattern's separator
  characters.

Shared pieces:
- `wrappers.dfy`: `Option` and `Result`.
- `text.dfy` (`PyText`): Python's `str.isspace`, `str(n)` of a natural number,
  and decimal parsing.
- `sums.dfy` (`Sums`): multiplication as repeated addition, which the counting
  lemmas use.

Mapping from the source to the model:
- **Mutable objects become classes.** These are `ExpenseStore`, `Task`,
  `TaskList` and the two `Timer`s. Their methods state the whole new state.
- **Files become ghost fields.** What a file holds after the last write is a
  ghost field `persisted` that the writing methods assign.
- **Printed output becomes a return value.** What a timer prints is the
  sequence of events the method returns.
- **Outside inputs become parameters.** Clocks, uuids and parsed command-line
  values are passed in.
- **Exits become error values.** An exception or a `sys.exit(1)` becomes an
  `Err`, a `None` or a null result, and nothing changes on that path.

Facts about the code that the model keeps as they are:
- Listing in the task tracker is in list order, not sorted by id.
- The expense tracker has no listing, update or monthly-sum code.
- The expense tracker's `delete` neither removes the item nor writes the file.
  So the pool can hold an id that still keys an item, or the same id twice
  (`DeleteBreaksWellFormed`, `AddAfterDeleteOverwrites`, `DoubleDeleteScenario`).
- In the task setters the check runs before the assignment, so a rejected
  value is never stored. The rollback in the `except` branch only restores
  fields that a rejection never changed.
- When `taskDB.json` is missing, the task tracker creates it holding the empty
  text, not an empty JSON list. The list starts empty in that run. So `delete`,
  `update` and the `mark-*` commands find no task there and write nothing, and
  only an `add` in that same run replaces the text (`MissingFileFirstRun`).
  Every later run builds the task list first. Loading it then hits the empty
  text, so `json.load` fails and the run exits before any command, `add`
  included. The file stays broken until it is deleted.

## Model

| member | source | states |
|---|---|---|
| PyText.IsSpaceChar | task-tracker-cli/task-tracker.py:25 | the characters Python's `str.isspace` counts as whitespace (bidirectional class WS, B or S, or category Zs) |
| PyText.IsSpace | expense-tracker-cli/expense-tracker.py:158 | `s.isspace()`: `s` is non-empty and every character is whitespace |
| PyText.Str | expense-tracker-cli/expense-tracker.py:118 | `str(id)` is a non-empty run of decimal digits with no leading zero |
| PyText.StrInjective | expense-tracker-cli/expense-tracker.py:118 | distinct ids give distinct `items` keys |
| ExpenseTracker.Bootstrap | expense-tracker-cli/expense-tracker.py:26-29 | the document written for a missing file has counter 1, an empty pool and no items |
| ExpenseTracker.Allocate | expense-tracker-cli/expense-tracker.py:106-110 | with a non-empty pool the id is taken from the pool and the counter is kept; from a sorted pool it is the smallest id. With an empty pool the id is the counter and the counter grows by exactly 1; the pool loses exactly the issued id |
| ExpenseTracker.AllocateManyFromEmptyPool | expense-tracker-cli/expense-tracker.py:108-110 | with an empty pool, n adds issue k, k+1, ..., k+n-1 in order and leave the counter at k+n |
| ExpenseTracker.FreshStoreIssuesOneToN | expense-tracker-cli/expense-tracker.py:26-29 | from the bootstrap document, n adds with no delete issue 1..n in order and leave the counter at n+1 |
| ExpenseTracker.LowestFitExample | expense-tracker-cli/expense-tracker.py:106-110 | pool [2, 5] and counter 9: three adds issue 2, 5, 9 and leave counter 10 |
| ExpenseTracker.AddKeepsWellFormed | expense-tracker-cli/expense-tracker.py:104-127 | on a consistent store (the pool is strictly ascending and below the counter; item keys are the leading-zero-free decimal forms of issued ids outside the pool) an add never overwrites an existing item and keeps the store consistent |
| ExpenseTracker.SortIds | expense-tracker-cli/expense-tracker.py:132 | `sort()` on the pool, by insertion; `SortIdsCorrect` proves it ascending and a permutation |
| ExpenseTracker.InsertSorted | expense-tracker-cli/expense-tracker.py:132 | one insertion step of the sort; `InsertSortedCorrect` proves it keeps order and adds exactly one element |
| ExpenseTracker.SortIdsCorrect | expense-tracker-cli/expense-tracker.py:132 | `sort()` leaves the pool ascending and a permutation of what it was |
| ExpenseTracker.WellFormed | expense-tracker-cli/expense-tracker.py:104-132 | a consistent store: the pool is strictly ascending and below the counter, the counter is positive, and every item key is the decimal form (no leading zero, so one key per id) of an issued id outside the pool |
| ExpenseTracker.AllocateMany | expense-tracker-cli/expense-tracker.py:106-110 | the ids issued by n consecutive adds and the counter section after them |
| ExpenseTracker.DeleteThenAddReusesSmallest | expense-tracker-cli/expense-tracker.py:129-132 | after `delete(id)` the pool is sorted and holds `id`, so the next add issues the smallest pooled id, at most `id` |
| ExpenseTracker.ExpenseStore.Valid | expense-tracker-cli/expense-tracker.py:58-61 | the counter section of the document equals the class fields, since after `_load_counter` the pool is the very list the document holds |
| ExpenseTracker.ExpenseStore.constructor | expense-tracker-cli/expense-tracker.py:100-101 | the store holds the stored document, or the bootstrap document when there is none; the class fields are loaded from it and the file holds that document |
| ExpenseTracker.ExpenseStore.LoadCounter | expense-tracker-cli/expense-tracker.py:55-64 | the counter and the pool are copied from the document; the document and the file are unchanged |
| ExpenseTracker.ExpenseStore.WriteCounter | expense-tracker-cli/expense-tracker.py:67-83 | the document's counter section becomes the class fields and the file then holds the whole document |
| ExpenseTracker.ExpenseStore.FinalWriting | expense-tracker-cli/expense-tracker.py:86-98 | the file holds the in-memory document and nothing else changes |
| ExpenseTracker.ExpenseStore.AddExpenseRecord | expense-tracker-cli/expense-tracker.py:104-127 | from a non-empty pool: the head is issued and removed, the counter is kept. From an empty pool: the counter is issued and incremented. Exactly one entry is put under `str(id)` and the other items are kept. The file ends equal to the in-memory document with the new counter section |
| ExpenseTracker.ExpenseStore.Delete | expense-tracker-cli/expense-tracker.py:129-132 | the pool becomes the sorted pool plus `id` (ascending, and a permutation of it); the counter, the items and the file are untouched |
| ExpenseTracker.DeleteThenAddScenario | expense-tracker-cli/expense-tracker.py:104-132 | three adds to a fresh store issue 1, 2, 3; after deleting 2 the next add issues 2 |
| ExpenseTracker.DeleteBreaksWellFormed | expense-tracker-cli/expense-tracker.py:129-132 | deleting an id that keys an item leaves a store that is no longer consistent: the id is both pooled and still in `items` |
| ExpenseTracker.AddAfterDeleteOverwrites | expense-tracker-cli/expense-tracker.py:104-132 | after deleting an id below every pooled one, the next add issues that id again while its key is still in `items`, so the add replaces the old item |
| ExpenseTracker.DoubleDeleteScenario | expense-tracker-cli/expense-tracker.py:129-132 | after adds 1 and 2, deleting 1 twice makes the next two adds both issue 1 |
| ExpenseTracker.ValidateString | expense-tracker-cli/expense-tracker.py:155-166 | an all-whitespace string is rejected first, then the empty string; anything else is returned unchanged |
| ExpenseTracker.ValidateAmount | expense-tracker-cli/expense-tracker.py:142-152 | exactly the amounts above zero are accepted, unchanged |
| ExpenseTracker.ValidateMonthInput | expense-tracker-cli/expense-tracker.py:169-179 | exactly the months 1..12 are accepted, unchanged |
| TaskTracker.CheckDescription | task-tracker-cli/task-tracker.py:23-36 | accepted exactly when not all-whitespace and at most 100 characters, and returned unchanged; whitespace is reported before length, and the length error carries the length |
| TaskTracker.CheckStatus | task-tracker-cli/task-tracker.py:39-46 | exactly "todo", "in-progress" and "done" are accepted, unchanged |
| TaskTracker.DescriptionBoundaries | task-tracker-cli/task-tracker.py:30-36 | the empty description and a 100-character one are accepted; a 101-character one is not |
| TaskTracker.Task.constructor | task-tracker-cli/task-tracker.py:14-20 | the record holds exactly the given fields |
| TaskTracker.Task.Record | task-tracker-cli/task-tracker.py:124 | `asdict(obj)`: the task's five fields as one record; `RecordsOf` and `TaskList.Records` are built from it |
| TaskTracker.Task.New | task-tracker-cli/task-tracker.py:48-51 | construction fails exactly when the description or the status check fails; otherwise the task has the given fields, with the defaults status "todo" and updatedAt "" |
| TaskTracker.Task.SetDescription | task-tracker-cli/task-tracker.py:62-75 | it succeeds exactly when there is a first argument and it passes the check. Then only the description (to that argument) and updatedAt (to now) change; otherwise the task is exactly as before |
| TaskTracker.Task.SetStatus | task-tracker-cli/task-tracker.py:77-90 | it succeeds exactly when the status passes the check. Then only the status and updatedAt change; otherwise the task is exactly as before |
| TaskTracker.RecordsOf | task-tracker-cli/task-tracker.py:124 | the records written are those of the tasks, in list order |
| TaskTracker.FirstIndexOfId | task-tracker-cli/task-tracker.py:142-147 | the index found holds the id and no earlier task does; none is found exactly when no task has the id |
| TaskTracker.Shown | task-tracker-cli/task-tracker.py:233-240 | what the `list` command prints for a filter: every task for "all", the status filter for a status, nothing otherwise |
| TaskTracker.WithStatus | task-tracker-cli/task-tracker.py:237-240 | the tasks with the status, in list order; `WithStatusMembers` and `StatusFiltersPartition` characterise it |
| TaskTracker.WithStatusMembers | task-tracker-cli/task-tracker.py:237-240 | a record is listed under a status exactly when it is in the list and has that status |
| TaskTracker.StatusFiltersPartition | task-tracker-cli/task-tracker.py:237-240 | when every status is valid, the three status listings together have as many tasks as the list |
| TaskTracker.TaskList.constructor | task-tracker-cli/task-tracker.py:98-136 | with a stored file, the list is the loaded tasks and the file holds their records; with no file, the list is empty and the file holds the empty text |
| TaskTracker.TaskList.WriteJsonFile | task-tracker-cli/task-tracker.py:120-133 | the file holds the JSON list of the list's records, in order |
| TaskTracker.TaskList.CreateTask | task-tracker-cli/task-tracker.py:138-140 | it succeeds exactly when the description passes. One new task (the description, the shared default id and createdAt, "todo", "") is appended, earlier tasks are kept and the file is rewritten; on failure nothing changes |
| TaskTracker.TaskList.ReturnSpecificTask | task-tracker-cli/task-tracker.py:142-147 | the first task whose id is `id[0]`; none exactly when no task has it or the argument list is empty |
| TaskTracker.TaskList.RemoveSpecificTask | task-tracker-cli/task-tracker.py:149-157 | it succeeds exactly when some task has the id. Only the first such task is removed, the order of the rest is kept and the file is rewritten; otherwise nothing changes |
| TaskTracker.TaskList.ListTasks | task-tracker-cli/task-tracker.py:233-240 | "all" shows every task; a status shows the tasks with that status in list order; any other filter shows nothing |
| TaskTracker.TasksWithStatus | task-tracker-cli/task-tracker.py:237-240 | the loop picks exactly the tasks with the status, in list order |
| TaskTracker.SharedDefaultsScenario | task-tracker-cli/task-tracker.py:17-19 | two tasks created in one run get the same id and creation time, because the defaults are evaluated once |
| TaskTracker.MissingFileFirstRun | task-tracker-cli/task-tracker.py:98-157 | in the run that finds no file, the lookup and `delete` find no task and the file stays the empty text; an `add` with an accepted description replaces it with a one-task list, a rejected one leaves it empty |
| Tick.Running | others/tick/timer.py:69 | the condition of the per-set loop; `RunningIffPositive` ties it to the total |
| Tick.SetTrace | others/tick/timer.py:69-83 | the tick lines one set prints, one per pass of the loop; `SetTraceShape` gives their number and values |
| Tick.Sets | others/tick/timer.py:68-91 | sets k..rep, each started from the constructor values, with a rest after each set but the last when a rest time is given |
| Tick.CountdownTrace | others/tick/timer.py:55-97 | everything `countdown` prints: the start banner, the sets, the end banner |
| Tick.Step | others/tick/timer.py:74-82 | on a running non-negative clock one pass takes exactly one second off the total and keeps the values non-negative; a stopped clock is left alone |
| Tick.RunningIffPositive | others/tick/timer.py:69 | the loop condition holds on a non-negative clock exactly when the total is positive |
| Tick.StepTimes | others/tick/timer.py:69-83 | the clock (hours, minutes, seconds) after k passes of the countdown loop; `StepTimesTotal` states what it means |
| Tick.StepTimesTotal | others/tick/timer.py:69-83 | after k ≤ total passes, exactly total − k seconds remain |
| Tick.SetRunsTotalTicks | others/tick/timer.py:69-83 | the loop condition holds before each of the first `hour*3600 + minute*60 + second` passes; after them the clock reads 0:0:0 |
| Tick.SetTraceShape | others/tick/timer.py:69-83 | one set prints exactly total tick lines, all of that set and with no rest; the j-th line shows total − j seconds left |
| Tick.SetsTicks | others/tick/timer.py:68-87 | the values are reset after each set, so every set k..rep prints the same number of tick lines |
| Tick.SetsRests | others/tick/timer.py:89-90 | sets k..rep contain rep − k rests when a rest time is given, none otherwise |
| Tick.CountdownCounts | others/tick/timer.py:68-90 | `countdown` prints rep × total tick lines; it prints rep − 1 rests when a rest time is given and none otherwise |
| Tick.RestsBeforeTick | others/tick/timer.py:89-90 | within sets k..rep, a tick line of set j has exactly j − k rests before it |
| Tick.CountdownRestsOnlyBetweenSets | others/tick/timer.py:68-90 | in the whole countdown, a tick line of set j has exactly j − 1 rests before it, so rests fall only between sets |
| Tick.Timer.constructor | others/tick/timer.py:15-27 | the timer stores the five values |
| Tick.Timer.Countdown | others/tick/timer.py:55-97 | the method prints exactly the countdown trace: the start banner, each set counted down to 0:0:0 from the constructor values, a rest between sets when a rest time is given, the end banner |
| Tick.StopwatchStep | others/tick/timer.py:40-43 | one more second; the minute grows exactly when the seconds reach 60, and the seconds stay in 0..59 |
| Tick.StopwatchAfter | others/tick/timer.py:32-43 | the stopwatch's counters after k passes of its loop from 0:0 |
| Tick.StopwatchCountsSeconds | others/tick/timer.py:32-43 | from 0:0, after k steps the seconds are in 0..59 and minute × 60 + second = k |
| Tick.ValidateSecondInput | others/tick/timer.py:100-111 | exactly 0..60 is accepted, unchanged |
| Tick.ValidateMinuteInput | others/tick/timer.py:114-125 | exactly 0..60 is accepted, unchanged |
| Tick.ValidateHourInput | others/tick/timer.py:128-139 | exactly 0..23 is accepted, unchanged |
| Tick.ValidateRepInput | others/tick/timer.py:142-153 | exactly the integers ≥ 1 are accepted, unchanged |
| Tick.ValidatedClockIsNonNegative | others/tick/timer.py:100-139 | validated values form a non-negative clock of bounded total |
| RepeatTimer.Row | others/timer.py:37-40 | the lines the inner loop prints for counts j..time of set k |
| RepeatTimer.Sets | others/timer.py:36-43 | sets k..rep with a rest after every set but the last when a rest time is given |
| RepeatTimer.RepeatTrace | others/timer.py:31-50 | everything `count_the_timer` prints: the start banner, the sets, the end banner |
| RepeatTimer.RowShape | others/timer.py:37-40 | the inner loop prints (k, 1), ..., (k, time) and no rest |
| RepeatTimer.SetsLength | others/timer.py:36-40 | sets k..rep print `time` count lines each |
| RepeatTimer.SetsRests | others/timer.py:42-43 | sets k..rep contain rep − k rests when a rest time is given, none otherwise |
| RepeatTimer.SetsCounts | others/timer.py:36-40 | the count lines of sets k..rep come in lexicographic order of (rep_count, count) |
| RepeatTimer.RepeatTraceShape | others/timer.py:36-45 | `count_the_timer` prints rep × time lines (1,1) .. (rep,time) in lexicographic order, and rep − 1 rests when a rest time is given, none otherwise |
| RepeatTimer.RowElements | others/timer.py:37-40 | the i-th line the inner loop prints for set k from count j is (k, j + i) |
| RepeatTimer.RestsBeforeCount | others/timer.py:36-43 | with a rest time, a count line of set j in the sets from k on has exactly j − k rests before it |
| RepeatTimer.RepeatRestsOnlyBetweenSets | others/timer.py:36-43 | with a rest time, a count line of set j in the whole trace has exactly j − 1 rests before it, so no rest precedes the first set and each rest follows a finished set |
| RepeatTimer.OneSetIgnoresRest | others/timer.py:42-43 | with one set the rest time never shows |
| RepeatTimer.Timer.CountTheTimer | others/timer.py:23-50 | the arguments are stored in the attributes and the method prints exactly the repeat trace |
| RepeatTimer.ValidateTimeInput | others/timer.py:53-64 | exactly the positive integers are accepted, unchanged |
| RepeatTimer.ChooseCall | others/timer.py:113-119 | `--rest` is passed only together with `--rep`; without `--rep` the call uses one set and no rest |
| RepeatTimer.ChosenCallHonoursOptions | others/timer.py:113-119 | whatever options are given, the chosen call prints what the options ask for |
| GithubActivity.ForbiddenChar | github-user-activity/github-activity.py:54-57 | one alternative of the searched pattern: a space, one of the listed punctuation characters, or A-Z |
| GithubActivity.HasForbiddenChar | github-user-activity/github-activity.py:54-57 | `re.search` of the pattern finds something: some character of the name is forbidden |
| GithubActivity.ValidateUserName | github-user-activity/github-activity.py:54-69 | a name is accepted exactly when it has no forbidden character and 1..39 characters, and it is returned unchanged. A forbidden character (space, the listed punctuation, A-Z) is reported before the empty name and before the length |
| GithubActivity.CharacterCheckComesFirst | github-user-activity/github-activity.py:54-67 | an over-long name with an upper-case letter is rejected for the letter |
| GithubActivity.NameLengthBoundary | github-user-activity/github-activity.py:63-69 | 39 allowed characters are accepted; 40 are rejected as too long |
| GithubActivity.BackslashSlipsThrough | github-user-activity/github-activity.py:54-59 | the name `a\b` is accepted as written |
| GithubActivity.ValidateUserNameIntended | github-user-activity/github-activity.py:58 | the check the message describes: [a-z0-9-] only, 1..39 characters |
| GithubActivity.IntendedCheckNarrowsWritten | github-user-activity/github-activity.py:54-59 | the intended check accepts only names the written one accepts, and it rejects `a\b` |
| GithubActivity.Parts | github-user-activity/github-activity.py:107 | the pattern's six fields from a start position: non-empty digit runs ended by `-`, `-`, `T`, `:`, `:`, `Z` in turn, or none; the field count is the separator count |
| GithubActivity.Groups | github-user-activity/github-activity.py:107 | the pattern's two groups, the date and the time, rebuilt from the six fields |
| GithubActivity.MatchAt | github-user-activity/github-activity.py:107 | the groups of a match starting at a given position, if there is one |
| GithubActivity.FirstMatch | github-user-activity/github-activity.py:107-110 | the first entry of `re.findall`: the match at the lowest position at or after the start; `FirstMatchIsLeftmost` proves it leftmost |
| GithubActivity.FirstMatchIsLeftmost | github-user-activity/github-activity.py:107 | the first match found is the leftmost one; none is found only when the pattern matches nowhere |
| GithubActivity.ReformatDate | github-user-activity/github-activity.py:106-110 | the result is `None` exactly when the pattern matches nowhere in the text |
| GithubActivity.TimestampParts | github-user-activity/github-activity.py:107 | a timestamp `Y-Mo-DTH:Mi:SZ` (non-empty digit runs) splits into its six digit runs |
| GithubActivity.ReformatTimestamp | github-user-activity/github-activity.py:106-110 | `Y-Mo-DTH:Mi:SZ` becomes `Y-Mo-D H:Mi:S`: the `T` turns into a space and the `Z` is dropped |
| GithubActivity.FirstMatchWins | github-user-activity/github-activity.py:109-110 | only the first match in the text is returned |

## Left out

### File input and output
- Reading and writing `expenseDB.json` and `taskDB.json` are not modelled: the JSON codec is a library and the file system is outside the model. What a file holds is the ghost field `persisted`, and a write is an assignment of the whole document. This covers `_load_python_object`, `load_json_file` and `json.dump`.
- The bootstrap write-then-read-back of the expense document is not modelled. It becomes the constructor's choice between a given stored document and `Bootstrap()`.
- Errors from the file system and the codec are not modelled: the model has no file system or codec for them to come from.
- Crash atomicity, file locking and races between processes are not modelled: the code does nothing about them.

### Command line and terminal
- The `argparse` wiring of each tool is not modelled: it is a library. The validators are modelled on already parsed values.
- The `int(...)` and `float(...)` parsing inside the validators is not modelled, nor its error path. Amounts are `real`, not IEEE floats.
- The expense tracker's `main` and its `print(expense_record)` are not modelled: they are command-line glue. The parser also declares list, summary, delete and update commands, but `main` handles only `add`, so there is nothing to model for those.
- `Expense.update_date` is not modelled: nothing calls it and it only sets an unused attribute.
- The task tracker's `main` dispatch for `mark-*`, `delete` and `update` is not modelled. `mark-*` and `update` call `ReturnSpecificTask`, then a setter, then `WriteJsonFile`; `delete` calls `RemoveSpecificTask`, then `WriteJsonFile`. Each of these is modelled.
- `print_description` is not modelled: the order of what is printed is captured by `ListTasks`.
- Printed messages, `sleep`, `clear_terminal` and `os.system` are not modelled: the timers' output is the event trace they return.
- The tick timer's `main` is not modelled: it is command-line glue.
- The stopwatch's endless `while True` loop is not modelled: it never terminates. Only its step is modelled, plus the state after k steps.
- The GitHub viewer's HTTP calls (`verify_user_name`, the event and profile fetches) are not modelled: they use the network.
- `handling_json` and the colour constants are not modelled: they only format output.
- The argument-count check at github-user-activity/github-activity.py:48-52 is not modelled, including the `IndexError` when no user name is given.

### Clocks and ids
- `datetime.now()` and `uuid.uuid4()` are not modelled: they are clocks and randomness. Dates, times and ids are parameters, and the task defaults evaluated once are fields of `TaskList`.

### Weaker contracts and narrower readings
- ExpenseTracker.ExpenseStore: the counter, the pool and the document are class-level state of `Expense` in the source, shared by every instance. The model keeps them as fields of one `ExpenseStore` object. `main` builds a single instance, so no behaviour is lost, but sharing between several instances is not captured.
- TaskTracker.TaskList.constructor: what a later run does with the empty text is not modelled, because loading is outside the model. In the source, `main` builds `TaskList()` before any command (task-tracker-cli/task-tracker.py:204). Its `json.load` fails on the empty text, and the run exits (:109-118) for every command, `add` included. So unless the run that created the file was an `add`, the file stays broken until it is deleted.
- Tick.Timer.Countdown: requires non-negative working values. The validators guarantee this, and the source loops forever on, for example, `second = -1, minute = 1`.
- RepeatTimer.Timer.CountTheTimer: the attributes of a `Timer` before the first call do not exist in Python. The model gives them placeholder values.
- GithubActivity.ReformatDate: `\d` is read as the ASCII digits 0-9. Python's `re` also matches other Unicode decimal digits with it.
- GithubActivity.ValidateUserName: the differences between Python's code-point strings and Dafny strings are not modelled. Dafny strings are sequences of Unicode scalar values. This only matters for lone surrogates, which a command-line argument may carry in Python.

### Other scripts
- `others/Python-Scripts/create_file.py` and `others/Python-Scripts/article2text.py` are not part of this model: they are an interactive script and a network fetch.

## Findings

| source | as written | input that shows it | evidently intended | confidence | as-written member | corrected member |
|---|---|---|---|---|---|---|
| github-user-activity/github-activity.py:54-59 | the forbidden-character pattern lists the ASCII punctuation but leaves out the backslash, and it says nothing of non-ASCII characters | the user name `a\b` is accepted | the message on line 58 allows only lower-case letters, digits and `-`, so `a\b` should be rejected | not executed | GithubActivity.BackslashSlipsThrough | GithubActivity.ValidateUserNameIntended |

`GithubActivity.IntendedCheckNarrowsWritten` proves two things about the
corrected check: it accepts nothing that the written one rejects, and it
rejects `a\b`.
