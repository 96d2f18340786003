/** The event model and the event-to-task aggregation of dask_md_objs.py:
    scheduler transition events parsed from one row each, the per-task
    aggregate `Task`, and the `TaskHandler` that routes events to tasks by
    key. scratch/read_validate_sched.py carries an earlier, line-for-line
    identical copy of these classes (with the enum named `EventState` and
    the event class named `Event`); this module models both. */
module DaskMdObjs {
  import opened Wrappers
  import opened DaskMdHelpers
  import opened TaskBounds

  // ---------------------------------------------------------------------
  // Task states and events
  // ---------------------------------------------------------------------

  /** The closed set of scheduler task states; no order between them is implied. */
  datatype TaskState = Released | Waiting | Queued | Processing | Memory | Forgotten
  {
    /** The string the trace uses for this state (the enum member's value). */
    function Value(): string
    {
      match this
      case Released => "released"
      case Waiting => "waiting"
      case Queued => "queued"
      case Processing => "processing"
      case Memory => "memory"
      case Forgotten => "forgotten"
    }
  }

  ghost predicate IsTaskState(s: string)
  {
    exists t: TaskState :: t.Value() == s
  }

  /** Enum lookup by value, `TaskState(s)`: defined exactly on the six values. */
  function ParseTaskState(s: string): (r: Option<TaskState>)
    ensures r.Some? ==> r.value.Value() == s
    ensures r.None? <==> !IsTaskState(s)
  {
    if s == "released" then Some(Released)
    else if s == "waiting" then Some(Waiting)
    else if s == "queued" then Some(Queued)
    else if s == "processing" then Some(Processing)
    else if s == "memory" then Some(Memory)
    else if s == "forgotten" then Some(Forgotten)
    else None
  }

  /** Parsing a state's own value gives back that state, and nothing else parses to it. */
  lemma ParseTaskStateRoundTrip(t: TaskState, s: string)
    ensures ParseTaskState(t.Value()) == Some(t)
    ensures ParseTaskState(s) == Some(t) <==> s == t.Value()
  {
  }

  /** `EventSource`: the call-site address and the stimulus id, carried opaquely. */
  datatype EventSource = EventSource(addr: string, stimId: string)

  /** The columns of one scheduler transition row that the event reads. */
  datatype SchedulerRow = SchedulerRow(
    time: Cell, begins: Cell, ends: Cell,
    start: string, finish: string,
    calledFrom: string, stimulusId: string,
    key: string)
  {
    function Times(): TimeRow { TimeRow(time, begins, ends) }
  }

  datatype SchedulerEvent = SchedulerEvent(
    tEvent: Timestamp, tBegins: Option<Timestamp>, tEnds: Option<Timestamp>,
    start: TaskState, finish: TaskState,
    source: EventSource,
    taskId: string)

  /** Why building an event fails: a NaN event time, or a state outside the enum. */
  datatype EventError = InvalidTime(cause: TimeError) | InvalidState(value: string)

  /** `SchedulerEvent.__init__`: times first, then `start`, then `finish`;
      the first failure is the one raised. */
  function NewSchedulerEvent(row: SchedulerRow): (r: Result<SchedulerEvent, EventError>)
    ensures r.Ok? <==> row.time.Num? && IsTaskState(row.start) && IsTaskState(row.finish)
    ensures row.time.NaN? ==> r == Err(InvalidTime(NaNEventTime))
    ensures row.time.Num? && !IsTaskState(row.start) ==> r == Err(InvalidState(row.start))
    ensures row.time.Num? && IsTaskState(row.start) && !IsTaskState(row.finish) ==>
              r == Err(InvalidState(row.finish))
    ensures r.Ok? ==>
              && GenerateTimes(row.Times(), false) == Ok(EventTimes(r.value.tEvent, r.value.tBegins, r.value.tEnds))
              && r.value.start.Value() == row.start
              && r.value.finish.Value() == row.finish
              && r.value.source == EventSource(row.calledFrom, row.stimulusId)
              && r.value.taskId == row.key
  {
    match GenerateTimes(row.Times(), false)
    case Err(cause) => Err(InvalidTime(cause))
    case Ok(times) =>
      match ParseTaskState(row.start)
      case None => Err(InvalidState(row.start))
      case Some(start) =>
        match ParseTaskState(row.finish)
        case None => Err(InvalidState(row.finish))
        case Some(finish) =>
          Ok(SchedulerEvent(times.event, times.begins, times.ends, start, finish,
                            EventSource(row.calledFrom, row.stimulusId), row.key))
  }

  // ---------------------------------------------------------------------
  // Task: the abstract value and its invariant
  // ---------------------------------------------------------------------

  /** The begin values of a list of events, in order. */
  function Begins(es: seq<SchedulerEvent>): seq<Option<Timestamp>>
  {
    seq(|es|, i requires 0 <= i < |es| => es[i].tBegins)
  }

  /** The end values of a list of events, in order. */
  function Ends(es: seq<SchedulerEvent>): seq<Option<Timestamp>>
  {
    seq(|es|, i requires 0 <= i < |es| => es[i].tEnds)
  }

  /** The fields of a `Task` object, as a value. `name` is absent until the
      first event arrives (Python leaves the attribute unset until then). */
  datatype TaskView = TaskView(
    name: Option<string>,
    events: seq<SchedulerEvent>,
    tStart: Option<Timestamp>,
    tEnd: Option<Timestamp>,
    workers: seq<string>,
    initiated: bool)
  {
    /** What `Task.add_event` does to the fields. */
    function Add(e: SchedulerEvent): TaskView
    {
      TaskView(Some(e.taskId), events + [e], MergeLower(tStart, e.tBegins),
               MergeLower(tEnd, e.tEnds), workers, true)
    }

    /** The fields agree with the event list: the bounds are the running
        minima over it, the name is the key of its latest event, and no
        parser ever fills `workers`. */
    ghost predicate WellFormed()
    {
      && initiated == (events != [])
      && name == (if events == [] then None else Some(events[|events| - 1].taskId))
      && tStart == Bound(Begins(events))
      && tEnd == Bound(Ends(events))
      && workers == []
    }
  }

  /** A `Task` built with no event. */
  const EmptyTask := TaskView(None, [], None, None, [], false)

  /** The task obtained by feeding `es`, in order, to an empty task. */
  function Replay(es: seq<SchedulerEvent>): TaskView
  {
    if es == [] then EmptyTask else Replay(es[..|es| - 1]).Add(es[|es| - 1])
  }

  lemma ReplayAppend(es: seq<SchedulerEvent>, e: SchedulerEvent)
    ensures Replay(es + [e]) == Replay(es).Add(e)
  {
    assert (es + [e])[..|es|] == es;
  }

  lemma BeginsEndsAppend(es: seq<SchedulerEvent>, e: SchedulerEvent)
    ensures Begins(es + [e]) == Begins(es) + [e.tBegins]
    ensures Ends(es + [e]) == Ends(es) + [e.tEnds]
  {
    assert Begins(es + [e]) == Begins(es) + [e.tBegins];
    assert Ends(es + [e]) == Ends(es) + [e.tEnds];
  }

  /** One `add_event`, field by field: the event is appended and nothing
      earlier changes, the task takes the event's key and is initiated, and
      each bound is set by a first present value, lowered by a smaller one
      and left alone by an absent one, each bound looking only at its own
      value of the event. */
  lemma AddEffect(v: TaskView, e: SchedulerEvent)
    ensures v.Add(e).events == v.events + [e] && |v.Add(e).events| == |v.events| + 1
    ensures v.Add(e).name == Some(e.taskId) && v.Add(e).initiated && v.Add(e).workers == v.workers
    ensures e.tBegins.None? ==> v.Add(e).tStart == v.tStart
    ensures e.tBegins.Some? && v.tStart.None? ==> v.Add(e).tStart == e.tBegins
    ensures e.tBegins.Some? && v.tStart.Some? ==>
              v.Add(e).tStart == Some(if e.tBegins.value < v.tStart.value then e.tBegins.value else v.tStart.value)
    ensures e.tEnds.None? ==> v.Add(e).tEnd == v.tEnd
    ensures e.tEnds.Some? && v.tEnd.None? ==> v.Add(e).tEnd == e.tEnds
    ensures e.tEnds.Some? && v.tEnd.Some? ==>
              v.Add(e).tEnd == Some(if e.tEnds.value < v.tEnd.value then e.tEnds.value else v.tEnd.value)
    ensures v.tStart.Some? ==> v.Add(e).tStart.Some? && v.Add(e).tStart.value <= v.tStart.value
    ensures v.tEnd.Some? ==> v.Add(e).tEnd.Some? && v.Add(e).tEnd.value <= v.tEnd.value
  {
    MergeLowerIsMin(v.tStart, e.tBegins);
    MergeLowerIsMin(v.tEnd, e.tEnds);
  }

  /** `add_event` keeps the invariant. */
  lemma AddPreservesWellFormed(v: TaskView, e: SchedulerEvent)
    requires v.WellFormed()
    ensures v.Add(e).WellFormed()
  {
    BeginsEndsAppend(v.events, e);
    BoundAppend(Begins(v.events), e.tBegins);
    BoundAppend(Ends(v.events), e.tEnds);
  }

  /** Replaying a list of events stores exactly that list and keeps the invariant. */
  lemma {:induction false} ReplayWellFormed(es: seq<SchedulerEvent>)
    ensures Replay(es).WellFormed() && Replay(es).events == es
  {
    if es != [] {
      ReplayWellFormed(es[..|es| - 1]);
      AddPreservesWellFormed(Replay(es[..|es| - 1]), es[|es| - 1]);
      assert es[..|es| - 1] + [es[|es| - 1]] == es;
    }
  }

  /** The invariant characterises exactly the states a task can reach:
      a task is well formed if and only if it is the replay of its own events. */
  lemma WellFormedIsReplay(v: TaskView)
    ensures v.WellFormed() <==> v == Replay(v.events)
  {
    ReplayWellFormed(v.events);
  }

  /** After any sequence of events, `t_start` is the least present begin
      value and `t_end` the least present end value (absent when there is none). */
  lemma ReplayBoundsAreEarliest(es: seq<SchedulerEvent>)
    ensures IsEarliest(Replay(es).tStart, Begins(es))
    ensures IsEarliest(Replay(es).tEnd, Ends(es))
  {
    ReplayWellFormed(es);
    BoundIsEarliest(Begins(es));
    BoundIsEarliest(Ends(es));
  }

  /** Lists holding the same events hold the same begin values and the same end values. */
  lemma SameEventsSameStamps(es: seq<SchedulerEvent>, fs: seq<SchedulerEvent>, x: Option<Timestamp>)
    requires forall e :: e in es <==> e in fs
    ensures x in Begins(es) ==> x in Begins(fs)
    ensures x in Ends(es) ==> x in Ends(fs)
  {
    if x in Begins(es) {
      var i :| 0 <= i < |es| && Begins(es)[i] == x;
      assert es[i] in fs;
      var j :| 0 <= j < |fs| && fs[j] == es[i];
      assert Begins(fs)[j] == x;
    }
    if x in Ends(es) {
      var i :| 0 <= i < |es| && Ends(es)[i] == x;
      assert es[i] in fs;
      var j :| 0 <= j < |fs| && fs[j] == es[i];
      assert Ends(fs)[j] == x;
    }
  }

  /** The bounds of a task do not depend on the order its events arrive in. */
  lemma ReplayBoundsOrderIndependent(es: seq<SchedulerEvent>, fs: seq<SchedulerEvent>)
    requires multiset(es) == multiset(fs)
    ensures Replay(es).tStart == Replay(fs).tStart
    ensures Replay(es).tEnd == Replay(fs).tEnd
  {
    forall e
      ensures e in es <==> e in fs
    {
      assert e in es <==> e in multiset(es);
      assert e in fs <==> e in multiset(fs);
    }
    forall x
      ensures x in Begins(es) <==> x in Begins(fs)
      ensures x in Ends(es) <==> x in Ends(fs)
    {
      SameEventsSameStamps(es, fs, x);
      SameEventsSameStamps(fs, es, x);
    }
    SameMembersSameBound(Begins(es), Begins(fs));
    SameMembersSameBound(Ends(es), Ends(fs));
    ReplayWellFormed(es);
    ReplayWellFormed(fs);
  }

  // ---------------------------------------------------------------------
  // Task: the object
  // ---------------------------------------------------------------------

  class Task {
    var name: Option<string>
    var events: seq<SchedulerEvent>
    var tStart: Option<Timestamp>
    var tEnd: Option<Timestamp>
    var workers: seq<string>
    var initiated: bool

    function View(): TaskView
      reads this
    {
      TaskView(name, events, tStart, tEnd, workers, initiated)
    }

    ghost predicate Valid()
      reads this
    {
      View().WellFormed()
    }

    /** `Task(first_event=None)`: an empty task, then one `add_event` when an event is given. */
    constructor (firstEvent: Option<SchedulerEvent>)
      ensures Valid()
      ensures firstEvent.None? ==>
                name.None? && events == [] && workers == [] && tStart.None? && tEnd.None? && !initiated
      ensures firstEvent.Some? ==> View() == EmptyTask.Add(firstEvent.value)
    {
      name, events, workers := None, [], [];
      tStart, tEnd, initiated := None, None, false;
      new;
      if firstEvent.Some? {
        AddEvent(firstEvent.value);
      }
    }

    /** `Task.add_event`: rename to the event's key, append the event, mark
        the task initiated, then lower each bound by the event's value when
        that value is present. */
    method AddEvent(e: SchedulerEvent)
      modifies this
      ensures old(Valid()) ==> Valid()
      ensures View() == old(View()).Add(e)
    {
      if Valid() {
        AddPreservesWellFormed(View(), e);
      }
      name := Some(e.taskId);
      events := events + [e];
      initiated := true;

      if e.tBegins.Some? {
        if tStart.None? {
          tStart := e.tBegins;
        } else if e.tBegins.value < tStart.value {
          tStart := e.tBegins;
        }
      }

      if e.tEnds.Some? {
        if tEnd.None? {
          tEnd := e.tEnds;
        } else if e.tEnds.value < tEnd.value {
          tEnd := e.tEnds;
        }
      }
    }
  }

  // ---------------------------------------------------------------------
  // TaskHandler: the abstract value and its invariant
  // ---------------------------------------------------------------------

  /** The handler's dictionary as a value: the tasks by key, and the keys in
      insertion order (Python dictionaries remember it). */
  datatype HandlerView = HandlerView(tasks: map<string, TaskView>, order: seq<string>)
  {
    /** What `TaskHandler.add_event` does: a new key gets a task seeded with
        the event, an existing key's task receives it. */
    function Add(e: SchedulerEvent): HandlerView
    {
      if e.taskId in tasks then
        HandlerView(tasks[e.taskId := tasks[e.taskId].Add(e)], order)
      else
        HandlerView(tasks[e.taskId := EmptyTask.Add(e)], order + [e.taskId])
    }

    /** Every stored task is well formed, non-empty, named by its key and
        holds only events with that key; `order` lists each key once. */
    ghost predicate Consistent()
    {
      && (forall k | k in tasks :: KeyedBy(tasks[k], k))
      && Distinct(order)
      && (forall k :: k in tasks <==> k in order)
    }
  }

  ghost predicate Distinct(xs: seq<string>)
  {
    forall i, j | 0 <= i < j < |xs| :: xs[i] != xs[j]
  }

  /** The invariant of a task stored under key `k`. */
  ghost predicate KeyedBy(v: TaskView, k: string)
  {
    && v.WellFormed()
    && v.events != []
    && v.name == Some(k)
    && forall ev | ev in v.events :: ev.taskId == k
  }

  const EmptyHandler := HandlerView(map[], [])

  /** One `TaskHandler.add_event`: a new key gets exactly one new entry, a
      task holding only the event, at the end of the key order; a known key
      has only its own task extended. No other key is added, removed or changed. */
  lemma HandlerAddEffect(h: HandlerView, e: SchedulerEvent)
    ensures h.Add(e).tasks.Keys == h.tasks.Keys + {e.taskId}
    ensures forall k | k in h.tasks && k != e.taskId :: h.Add(e).tasks[k] == h.tasks[k]
    ensures e.taskId !in h.tasks ==>
              h.Add(e).tasks[e.taskId].events == [e] && h.Add(e).order == h.order + [e.taskId]
    ensures e.taskId in h.tasks ==>
              h.Add(e).tasks[e.taskId] == h.tasks[e.taskId].Add(e) && h.Add(e).order == h.order
  {
  }

  lemma AddKeepsKeyed(v: TaskView, k: string, e: SchedulerEvent)
    requires KeyedBy(v, k) && e.taskId == k
    ensures KeyedBy(v.Add(e), k)
  {
    AddPreservesWellFormed(v, e);
  }

  lemma FirstEventKeyed(e: SchedulerEvent)
    ensures KeyedBy(EmptyTask.Add(e), e.taskId)
  {
    assert EmptyTask.WellFormed();
    AddPreservesWellFormed(EmptyTask, e);
  }

  /** `add_event` keeps the handler's invariant. */
  lemma HandlerAddPreservesConsistent(h: HandlerView, e: SchedulerEvent)
    requires h.Consistent()
    ensures h.Add(e).Consistent()
  {
    var k := e.taskId;
    if k in h.tasks {
      AddKeepsKeyed(h.tasks[k], k, e);
    } else {
      FirstEventKeyed(e);
      assert k !in h.order;
    }
  }

  // ---------------------------------------------------------------------
  // TaskHandler: the object
  // ---------------------------------------------------------------------

  class TaskHandler {
    var tasks: map<string, Task>
    var keyOrder: seq<string>
    /** The `Task` objects the handler owns. */
    ghost var Repr: set<Task>
    /** The value of each stored task. */
    ghost var Contents: map<string, TaskView>

    ghost function View(): HandlerView
      reads this
    {
      HandlerView(Contents, keyOrder)
    }

    /** Every stored task is owned, is named by its key (so distinct keys
        hold distinct `Task` objects) and has the value `Contents` records. */
    ghost predicate Valid()
      reads this, Repr
    {
      && Contents.Keys == tasks.Keys
      && forall k | k in tasks ::
           && tasks[k] in Repr
           && tasks[k].name == Some(k)
           && tasks[k].View() == Contents[k]
    }

    constructor ()
      ensures Valid() && fresh(Repr)
      ensures tasks == map[] && keyOrder == [] && Contents == map[]
    {
      tasks, keyOrder, Repr, Contents := map[], [], {}, map[];
    }

    /** `TaskHandler.add_event`. */
    method AddEvent(e: SchedulerEvent)
      requires Valid()
      modifies this, Repr
      ensures Valid() && old(Repr) <= Repr && fresh(Repr - old(Repr))
      ensures View() == old(View()).Add(e)
      ensures e.taskId in old(tasks) ==> tasks == old(tasks)
      ensures e.taskId !in old(tasks) ==>
                e.taskId in tasks && fresh(tasks[e.taskId]) && tasks == old(tasks)[e.taskId := tasks[e.taskId]]
    {
      var key := e.taskId;
      if key !in tasks {
        var t := new Task(Some(e));
        tasks := tasks[key := t];
        keyOrder := keyOrder + [key];
        Repr := Repr + {t};
      } else {
        var t := tasks[key];
        assert forall k | k in tasks && k != key :: tasks[k] != t;
        t.AddEvent(e);
      }
      Contents := Contents[key := tasks[key].View()];
    }
  }

  // ---------------------------------------------------------------------
  // Ingesting a stream of events
  // ---------------------------------------------------------------------

  /** The handler `h` after feeding it `es`, in order. */
  function Ingest(h: HandlerView, es: seq<SchedulerEvent>): HandlerView
  {
    if es == [] then h else Ingest(h, es[..|es| - 1]).Add(es[|es| - 1])
  }

  lemma IngestAppend(h: HandlerView, es: seq<SchedulerEvent>, e: SchedulerEvent)
    ensures Ingest(h, es + [e]) == Ingest(h, es).Add(e)
  {
    assert (es + [e])[..|es|] == es;
  }

  /** The events of `es` whose key is `k`, in their original order. */
  function EventsFor(es: seq<SchedulerEvent>, k: string): (r: seq<SchedulerEvent>)
  {
    if es == [] then []
    else if es[|es| - 1].taskId == k then EventsFor(es[..|es| - 1], k) + [es[|es| - 1]]
    else EventsFor(es[..|es| - 1], k)
  }

  function TaskIds(es: seq<SchedulerEvent>): (r: seq<string>)
    ensures |r| == |es| && forall i | 0 <= i < |es| :: r[i] == es[i].taskId
  {
    seq(|es|, i requires 0 <= i < |es| => es[i].taskId)
  }

  /** The distinct elements of `ids`, in order of first occurrence. */
  function FirstSeen(ids: seq<string>): seq<string>
  {
    if ids == [] then []
    else
      var seen := FirstSeen(ids[..|ids| - 1]);
      if ids[|ids| - 1] in seen then seen else seen + [ids[|ids| - 1]]
  }

  lemma {:induction false} EventsForAbsent(es: seq<SchedulerEvent>, k: string)
    requires k !in TaskIds(es)
    ensures EventsFor(es, k) == []
  {
    if es != [] {
      assert TaskIds(es)[..|es| - 1] == TaskIds(es[..|es| - 1]);
      EventsForAbsent(es[..|es| - 1], k);
    }
  }

  lemma {:induction false} IngestConsistent(h: HandlerView, es: seq<SchedulerEvent>)
    requires h.Consistent()
    ensures Ingest(h, es).Consistent()
  {
    if es != [] {
      IngestConsistent(h, es[..|es| - 1]);
      HandlerAddPreservesConsistent(Ingest(h, es[..|es| - 1]), es[|es| - 1]);
    }
  }

  /** The handler holds a task for exactly the keys that occur in the
      stream, listed in order of first appearance. */
  lemma {:induction false} IngestKeys(es: seq<SchedulerEvent>)
    ensures forall k :: k in Ingest(EmptyHandler, es).tasks <==> k in TaskIds(es)
    ensures Ingest(EmptyHandler, es).order == FirstSeen(TaskIds(es))
  {
    if es == [] {
      assert TaskIds(es) == [];
    } else {
      var init, last := es[..|es| - 1], es[|es| - 1];
      IngestKeys(init);
      IngestConsistent(EmptyHandler, init);
      assert TaskIds(es) == TaskIds(init) + [last.taskId];
      assert TaskIds(es)[..|es| - 1] == TaskIds(init);
    }
  }

  /** Aggregating a stream groups it by key: each task is what feeding that
      key's events, in stream order, to an empty task gives. */
  lemma {:induction false} IngestGroupsByKey(es: seq<SchedulerEvent>)
    ensures forall k | k in Ingest(EmptyHandler, es).tasks :: Ingest(EmptyHandler, es).tasks[k] == Replay(EventsFor(es, k))
  {
    if es != [] {
      var init, last := es[..|es| - 1], es[|es| - 1];
      IngestGroupsByKey(init);
      var h := Ingest(EmptyHandler, init);
      var key := last.taskId;
      if key in h.tasks {
        ReplayAppend(EventsFor(init, key), last);
      } else {
        IngestKeys(init);
        EventsForAbsent(init, key);
        ReplayAppend([], last);
      }
      assert Ingest(EmptyHandler, es).tasks[key] == Replay(EventsFor(es, key));
    }
  }

  /** The bounds of every task built from a stream are the least begin and
      end values among that key's events. */
  lemma IngestBounds(es: seq<SchedulerEvent>, k: string)
    requires k in TaskIds(es)
    ensures k in Ingest(EmptyHandler, es).tasks
    ensures IsEarliest(Ingest(EmptyHandler, es).tasks[k].tStart, Begins(EventsFor(es, k)))
    ensures IsEarliest(Ingest(EmptyHandler, es).tasks[k].tEnd, Ends(EventsFor(es, k)))
  {
    IngestKeys(es);
    IngestGroupsByKey(es);
    ReplayBoundsAreEarliest(EventsFor(es, k));
  }

  /** Three events with begins 100, 90, 95 and no ends leave the task
      starting at 90 with no end. */
  lemma EarliestBeginScenario(e1: SchedulerEvent, e2: SchedulerEvent, e3: SchedulerEvent)
    requires e1.tBegins == Some(100) && e2.tBegins == Some(90) && e3.tBegins == Some(95)
    requires e1.tEnds.None? && e2.tEnds.None? && e3.tEnds.None?
    ensures Replay([e1, e2, e3]).tStart == Some(90)
    ensures Replay([e1, e2, e3]).tEnd.None?
  {
    ReplayAppend([], e1);
    assert [] + [e1] == [e1];
    ReplayAppend([e1], e2);
    assert [e1] + [e2] == [e1, e2];
    ReplayAppend([e1, e2], e3);
    assert [e1, e2] + [e3] == [e1, e2, e3];
  }
}
