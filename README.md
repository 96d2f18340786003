# wfmeta-dask event aggregation, modelled in Dafny

wfmeta-dask reads the scheduler transition log that a Dask run leaves
behind and turns it into tasks. Each row becomes a `SchedulerEvent`. The
row's `time`, `begins` and `ends` columns become one mandatory timestamp
and two optional ones, and its `start` and `finish` state strings must name
one of the six `TaskState` values. A `TaskHandler` routes every event by
its task key to a `Task` object:
- it creates the task on the first event for a key;
- it forwards every later event for that key to the existing task.

Each task keeps every event it is given. It also keeps the earliest begin
time as `t_start` and the earliest end time as `t_end`. An absent time never
changes a bound. A validation script also checks the log's `begins` and
`ends` columns. They must be NaN at the same rows, and every present
`begins` must be strictly before its `ends`.

The project has five modules:

- `Wrappers` (`wrappers.dfy`): `Option`, `Result`, `Outcome`.
- `DaskMdHelpers` (`dask_md_helpers.dfy`): `generate_times` and
  `create_poss_nan_time`. A raw cell is `NaN` or a whole number of epoch
  seconds. `datetime.fromtimestamp` is the identity on those seconds.
- `TaskBounds` (`task_bounds.dfy`): the earliest-wins update that
  `Task.add_event` applies to each bound. It is written once as
  `MergeLower` and folded over a sequence as `Bound`. `IsEarliest` is an
  independent definition of "least present value", and the lemmas connect
  the two.
- `DaskMdObjs` (`dask_md_objs.dfy`): the state enum, event construction,
  and the `Task` and `TaskHandler` classes.
  - Each class has fields and methods with `modifies` clauses, like the
    Python objects.
  - Each class also has an abstract value: `TaskView` for a task and
    `HandlerView` for the handler's dictionary, with the key insertion
    order Python dictionaries keep.
  - Every method is proved to move its abstract value exactly as the pure
    `Add` function does.
  - `Replay` and `Ingest` are folds of `Add` over a stream of events. The
    lemmas about those folds prove the stream-level properties: the bounds
    are the minima, they do not depend on event order, and events are
    grouped by key.
- `ReadValidateSched` (`read_validate_sched.dfy`): `begins_lt_ends` and the
  script loop that adds every row to the handler.

`scratch/read_validate_sched.py` is an older copy of the classes and
`generate_times`. Its `EventState`, `EventSource`, `Event`, `Task`,
`TaskHandler` and `generate_times` (lines 10-118 and 126-140) match
`dask_md_objs.py` and `dask_md_helpers.py` line for line, apart from the
names `EventState` and `Event`. The members listed for the main files
model both copies.

Two facts about the code shape the model:
- `Task.add_event` appends every event unconditionally
  (dask_md_objs.py:87). The code has no transfer events, so nothing is
  de-duplicated.
- `datetime.fromtimestamp` raises on a NaN `time` (dask_md_helpers.py:14).
  So `GenerateTimes` returns `NaNEventTime`, and `NewSchedulerEvent` passes
  that error on.

## Model

| member | source | states |
|---|---|---|
| DaskMdHelpers.CreatePossNanTime | dask_md_helpers.py:8-12 | The result is absent exactly when the cell is NaN; otherwise it is the cell's timestamp. |
| DaskMdHelpers.CreatePossNanTimeRoundTrip | dask_md_helpers.py:8-12 | Converting a cell and writing it back gives the same cell, and the other way round, so NaN and `None` correspond one to one. |
| DaskMdHelpers.GenerateTimes | dask_md_helpers.py:7-21 | The result succeeds exactly when `time` is present, and then holds `time`'s value. `begins` and `ends` are each absent exactly when their own cell is NaN, and otherwise hold that cell's value. A NaN `time` gives the error `NaNEventTime`. |
| DaskMdHelpers.GenerateTimesComponentwise | dask_md_helpers.py:14-21 | Each component depends only on its own input column. The debug flag never changes the result. |
| DaskMdObjs.ParseTaskState | dask_md_objs.py:8-16 | A string parses exactly when it is the value of one of the six states, and it parses to that state. |
| DaskMdObjs.ParseTaskStateRoundTrip | dask_md_objs.py:8-16 | Parsing a state's value gives back the state, and a string that parses is that state's value. |
| DaskMdObjs.NewSchedulerEvent | dask_md_objs.py:41-52 | Construction succeeds exactly when `time` is present and both state strings are valid. Errors are reported in source order: time, then `start`, then `finish`. On success the fields are the row's converted times, its states, its source pair and its key. |
| TaskBounds.MergeLowerIsMin | dask_md_objs.py:90-102 | `MergeLower` is one bound update, the branches at lines 90-95 for `t_start` and 97-102 for `t_end`. An absent value leaves the bound unchanged. The merged bound is absent only when both inputs are, is always one of the two, and is at most each present input. So a set bound never rises and never becomes absent again. |
| TaskBounds.BoundIsEarliest | dask_md_objs.py:78-102 | `Bound` folds `MergeLower` over a sequence, which is what a task built at lines 78-83 and fed through lines 90-102 does to each bound. Each step is one more merge (`BoundAppend`). The running bound over any sequence is its least present value, or absent when no value is present. |
| TaskBounds.SameMembersSameBound | dask_md_objs.py:90-102 | Two sequences with the same values have the same bound. |
| TaskBounds.BoundOrderIndependent | dask_md_objs.py:90-102 | The bound of any permutation of a sequence is the bound of the original. |
| TaskBounds.BoundNeverRises | dask_md_objs.py:90-102 | After any further values, a set bound is still set and is no larger. |
| DaskMdObjs.AddEffect | dask_md_objs.py:85-102 | `TaskView.Add` is the abstract effect of `add_event` (lines 85-102). One `add_event` appends the event and leaves earlier entries unchanged, so the length grows by one. It sets the name to the event's key and sets `initiated`. Each bound is set by a first present value, lowered by a strictly smaller one and left alone by an absent one. It never rises, and each bound ignores the other bound's value. |
| DaskMdObjs.AddPreservesWellFormed | dask_md_objs.py:85-102 | `add_event` keeps the task invariant: initiated exactly when there are events, the name is the last event's key, the bounds are the running minima of the event list, and `workers` is empty. |
| DaskMdObjs.ReplayWellFormed | dask_md_objs.py:78-102 | `Replay` feeds a stream, in order, to an empty task, as the constructor (lines 78-83) followed by repeated `add_event` calls (lines 85-102) does. A task fed any event stream holds exactly that stream, in order, and satisfies the invariant. |
| DaskMdObjs.WellFormedIsReplay | dask_md_objs.py:78-102 | A task state satisfies the invariant exactly when it is the replay of its own events. |
| DaskMdObjs.ReplayBoundsAreEarliest | dask_md_objs.py:78-102 | After any stream, `t_start` is the least present begin time and `t_end` the least present end time. Each is absent when there is none. |
| DaskMdObjs.ReplayBoundsOrderIndependent | dask_md_objs.py:78-102 | Two streams holding the same events in any order give the same `t_start` and `t_end`. |
| DaskMdObjs.EarliestBeginScenario | dask_md_objs.py:90-95 | Begins of 100, 90 and 95 with no ends leave the task starting at 90 with no end. |
| DaskMdObjs.Task.constructor | dask_md_objs.py:78-83 | With no event: no name, no events, no workers, no bounds, not initiated. With an event: the state one `add_event` gives on an empty task. Either way the invariant holds. |
| DaskMdObjs.Task.AddEvent | dask_md_objs.py:85-102 | The object's fields become exactly what `TaskView.Add` gives from the old fields, and the invariant is kept. |
| DaskMdObjs.HandlerAddEffect | dask_md_objs.py:119-125 | `HandlerView.Add` is the abstract effect of `TaskHandler.add_event`: a new key at lines 120-122, a known key at lines 124-125. A new key gets exactly one new entry, holding only the event, at the end of the key order. A known key has only its own task extended. No other key is added, removed or changed. |
| DaskMdObjs.HandlerAddPreservesConsistent | dask_md_objs.py:119-125 | The handler invariant is kept: each stored task is well formed, is named by its key and holds only events with that key, and the key order lists each stored key exactly once. |
| DaskMdObjs.TaskHandler.constructor | dask_md_objs.py:116-117 | A new handler has no tasks. |
| DaskMdObjs.TaskHandler.AddEvent | dask_md_objs.py:119-125 | The handler's abstract value moves exactly as `HandlerView.Add` says. For a known key the dictionary keeps the same objects. For a new key exactly one fresh `Task` is inserted, and every other entry stays the same object. |
| DaskMdObjs.IngestConsistent | dask_md_objs.py:119-125 | `Ingest` feeds a stream, in order, to a handler through repeated `add_event` calls (lines 119-125); this is also what the script loop does. Any stream fed to a handler that satisfies the invariant leaves it satisfying the invariant. |
| DaskMdObjs.IngestKeys | dask_md_objs.py:119-125 | After a stream, the handler holds a task for exactly the keys in the stream, in order of first appearance. |
| DaskMdObjs.IngestGroupsByKey | dask_md_objs.py:119-125 | After a stream, each key's task is the replay of that key's events, in stream order. |
| DaskMdObjs.IngestBounds | dask_md_objs.py:85-125 | After a stream, each key's task bounds are the least begin and end times among that key's events. |
| ReadValidateSched.OrderingCountZeroIff | scratch/read_validate_sched.py:156-158 | For equal-length columns, no row is counted as begins-after-ends exactly when every row with both values present has begins strictly before ends. So a NaN on either side never triggers the ordering error. |
| ReadValidateSched.CountTrueZero | scratch/read_validate_sched.py:158-161 | A mask's count of true entries is zero exactly when no entry is true. |
| ReadValidateSched.NaNsAndValuesCoverColumn | scratch/read_validate_sched.py:149-154 | The NaN count plus the number of present values is the column length, so the second consistency check can never fail. |
| ReadValidateSched.BeginsLtEnds | scratch/read_validate_sched.py:142-161 | The body follows the source step by step. `NaNMask` is `np.isnan` (lines 143-144), `Present` is the masked selection (lines 150-151), `Subtract` is `np.subtract` with NaN propagation (line 156), `AtLeastZero` is `diff >= 0` with NaN comparing false (line 157), and `CountTrue` is `np.count_nonzero`. The check passes exactly when the NaN masks agree and every present pair has begins strictly before ends. It fails with `NaNMismatch` exactly when the masks differ, including when the lengths differ. It fails with `BeginNotBeforeEnd` exactly when the masks agree but some pair has begins at or after ends. |
| ReadValidateSched.IngestRows | scratch/read_validate_sched.py:195-197 | The loop finishes exactly when every row converts, and the handler then holds the old handler fed every converted row. On the first bad row it stops with that row's error. The handler then holds only the rows before it, so the failed row leaves no trace. |

## Left out

- Floating-point times: fractional seconds, local time zones and the range
  limits of `datetime.fromtimestamp`. Timestamps are whole epoch seconds.
  `datetime.fromtimestamp` returns naive local times. So across a
  daylight-saving fall-back, the comparisons at dask_md_objs.py:94 and 101
  can order two instants the opposite way from their epoch seconds. There
  the source's bound can differ from the minimum the model proves.
- A NaN or missing value in a string column (`start`, `finish`, `key`,
  `called_from`, `stimulus_id`). Each of these is a plain string.
- `EventSource`: carried as an uninterpreted pair of strings.
- Every `__str__` method and every debug `print`. They only format text.
- `WXferEvent` (dask_md_objs.py:60-67): an empty stub with no behaviour.
- `begins_eq_gt_time` and `pretty_print_line`
  (scratch/read_validate_sched.py:122-124, 166-184). They only compute
  values for printing.
- The rest of the script (scratch/read_validate_sched.py:187-194 and
  199-205): reading the CSV, the first-row conversion, and printing. Only
  the add-every-row loop is modelled.
- The command-line front ends, `extract_metadata`, the dashboard and the
  packaging. They are I/O and user-interface plumbing.
- Multi-key transfer fan-out, transfer de-duplication, `WorkerEvent`,
  `sort_tasks_by_time` and `to_df`. They live in `src/wfmeta_dask/objs`,
  which is not part of this model.
- DaskMdObjs.TaskHandler.AddEvent: the handler invariant (each task keyed
  by its key and holding only that key's events) is proved about the
  abstract value (`HandlerAddPreservesConsistent`), not as a postcondition
  of the method. Stating it on the method's heap is too costly for the
  verifier.
