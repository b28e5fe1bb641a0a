/** The task lifecycle store: one active task, a queue of paused tasks, the append-only log
    of completed tasks, and the project and category name histories.

    Timestamps are `Date.now()` values in milliseconds. Durations (`accumulatedTime`,
    `totalDuration`) are also held in milliseconds; the store's own values are these
    numbers divided by 1000 (seconds). Because every session is the difference of two
    millisecond timestamps, nothing is lost by keeping the factor 1000 out of the state.

    The transitions are first defined on values (`Pause`, `Start`, `Resume`, `Finish` on a
    `StoreState`); the class `Store` at the end updates its fields in place and is proved
    to agree with them. */
module GameStore {
  import opened Seqs

  datatype Option<T> = None | Some(value: T)

  /** Produced by `crypto.randomUUID()` in the store; here it is supplied by the caller. */
  type TaskId = string

  datatype ActiveTask = ActiveTask(
    id: TaskId, name: string, project: string, category: string,
    accumulatedTime: int,  // work of earlier sessions, in ms
    startTime: int)        // when the current session began

  datatype QueuedTask = QueuedTask(
    id: TaskId, name: string, project: string, category: string,
    accumulatedTime: int, lastPausedAt: int)

  datatype CompletedTask = CompletedTask(
    id: TaskId, name: string, project: string, category: string,
    accumulatedTime: int,  // work before the last session
    completedAt: int,
    totalDuration: int)    // all work on the task, in ms

  datatype StoreState = StoreState(
    activeTask: Option<ActiveTask>,
    queue: seq<QueuedTask>,
    completedTasks: seq<CompletedTask>,
    projectHistory: seq<string>,
    categoryHistory: seq<string>)

  const HistoryLimit: nat := 20

  const Initial := StoreState(None, [], [], [], [])

  // ---------------------------------------------------------------------------
  // Records moving between phases

  /** Work on the active task as of `now`: earlier sessions plus the running one.
      There is no clamp: a clock that went backwards makes the session negative. */
  function Elapsed(a: ActiveTask, now: int): (ms: int)
    ensures ms - a.accumulatedTime == now - a.startTime
    ensures now >= a.startTime ==> ms >= a.accumulatedTime
  {
    a.accumulatedTime + (now - a.startTime)
  }

  function Paused(a: ActiveTask, now: int): (t: QueuedTask)
    ensures t.id == a.id && t.name == a.name && t.project == a.project && t.category == a.category
    ensures t.accumulatedTime - a.accumulatedTime == now - a.startTime && t.lastPausedAt == now
  {
    QueuedTask(a.id, a.name, a.project, a.category, Elapsed(a, now), now)
  }

  /** The spread `{...taskToResume, startTime}`: everything carried over, a new session begins. */
  function Resumed(t: QueuedTask, now: int): (a: ActiveTask)
    ensures a.id == t.id && a.name == t.name && a.project == t.project && a.category == t.category
    ensures a.accumulatedTime == t.accumulatedTime && a.startTime == now
  {
    ActiveTask(t.id, t.name, t.project, t.category, t.accumulatedTime, now)
  }

  function Completed(a: ActiveTask, now: int): (c: CompletedTask)
    ensures c.id == a.id && c.name == a.name && c.project == a.project && c.category == a.category
    ensures c.accumulatedTime == a.accumulatedTime && c.completedAt == now
    ensures c.totalDuration - c.accumulatedTime == now - a.startTime
  {
    CompletedTask(a.id, a.name, a.project, a.category, a.accumulatedTime, now, Elapsed(a, now))
  }

  // ---------------------------------------------------------------------------
  // Identifiers

  function QueueIds(q: seq<QueuedTask>): (ids: seq<TaskId>)
    ensures |ids| == |q|
  {
    seq(|q|, i requires 0 <= i < |q| => q[i].id)
  }

  function CompletedIds(c: seq<CompletedTask>): (ids: seq<TaskId>)
    ensures |ids| == |c|
  {
    seq(|c|, i requires 0 <= i < |c| => c[i].id)
  }

  function ActiveIds(active: Option<ActiveTask>): seq<TaskId> {
    if active.Some? then [active.value.id] else []
  }

  /** Ids of the tasks still in progress: the active one first, then the queue. */
  function InProgressIds(s: StoreState): seq<TaskId> {
    ActiveIds(s.activeTask) + QueueIds(s.queue)
  }

  function Ids(s: StoreState): seq<TaskId> {
    InProgressIds(s) + CompletedIds(s.completedTasks)
  }

  /** `queue.find(t => t.id === id)`, as the index of the first match, or -1. */
  function IndexOfId(q: seq<QueuedTask>, id: TaskId): (i: int)
    ensures -1 <= i < |q|
    ensures i >= 0 ==> q[i].id == id && forall j :: 0 <= j < i ==> q[j].id != id
    ensures i < 0 <==> id !in QueueIds(q)
  {
    if q == [] then -1
    else if q[0].id == id then
      assert QueueIds(q)[0] == id;
      0
    else
      var k := IndexOfId(q[1..], id);
      assert QueueIds(q) == [q[0].id] + QueueIds(q[1..]);
      if k < 0 then -1 else k + 1
  }

  function FindQueued(q: seq<QueuedTask>, id: TaskId): (r: Option<QueuedTask>)
    ensures r.None? <==> id !in QueueIds(q)
    ensures r.Some? ==> r.value.id == id && r.value in q
    ensures r.Some? ==> r.value == q[IndexOfId(q, id)]
  {
    var i := IndexOfId(q, id);
    if i < 0 then None else Some(q[i])
  }

  /** `queue.filter(t => t.id !== id)`. */
  function RemoveId(q: seq<QueuedTask>, id: TaskId): (r: seq<QueuedTask>)
    ensures |r| <= |q|
    ensures forall t :: t in r <==> t in q && t.id != id
    ensures id !in QueueIds(q) ==> r == q
  {
    if q == [] then []
    else
      assert QueueIds(q) == [q[0].id] + QueueIds(q[1..]);
      if q[0].id == id then RemoveId(q[1..], id)
      else [q[0]] + RemoveId(q[1..], id)
  }

  // ---------------------------------------------------------------------------
  // Autocomplete history

  /** The history update of `startNewTask`: a value already present leaves the list
      alone (it is not moved to the front); any other value, the empty one included,
      is put in front and the list is cut to `HistoryLimit` entries. */
  function Remember(history: seq<string>, value: string): (r: seq<string>)
    ensures value in r
    ensures value in history ==> r == history
    ensures value !in history ==>
              |r| == Min(|history| + 1, HistoryLimit) && r[0] == value && r[1..] == history[..|r| - 1]
  {
    if value in history then history
    else
      var r := Take([value] + history, HistoryLimit);
      assert r[0] == value;
      r
  }

  ghost predicate HistoryOk(h: seq<string>) {
    |h| <= HistoryLimit && Distinct(h)
  }

  lemma RememberKeepsHistoryOk(h: seq<string>, value: string)
    requires HistoryOk(h)
    ensures HistoryOk(Remember(h, value))
  {
    if value !in h {
      var longer := [value] + h;
      assert multiset(longer) == multiset{value} + multiset(h);
      forall x ensures multiset(longer)[x] <= 1 {
        if x == value {
          assert multiset(h)[x] == 0;
        }
      }
      TakeDistinct(longer, HistoryLimit);
    }
  }

  // ---------------------------------------------------------------------------
  // The store invariant

  /** No id occurs twice among the active task, the queue and the completed log
      (so, in particular, the active task is never also queued), and both histories
      are short lists without repetitions. */
  ghost predicate Consistent(s: StoreState) {
    Distinct(Ids(s)) && HistoryOk(s.projectHistory) && HistoryOk(s.categoryHistory)
  }

  /** An id that no task of the store carries, as `crypto.randomUUID()` is trusted to give. */
  predicate IsFresh(s: StoreState, id: TaskId) {
    id !in Ids(s)
  }

  lemma InitialConsistent()
    ensures Consistent(Initial) && Ids(Initial) == []
  {
    assert Ids(Initial) == [];
  }

  /** The active task is never queued and never completed at the same time. */
  lemma {:induction false} ActiveIsAlone(s: StoreState)
    requires Consistent(s) && s.activeTask.Some?
    ensures s.activeTask.value.id !in QueueIds(s.queue)
    ensures s.activeTask.value.id !in CompletedIds(s.completedTasks)
  {
    var id := s.activeTask.value.id;
    var ids := Ids(s);
    assert ids == [id] + (QueueIds(s.queue) + CompletedIds(s.completedTasks));
    assert multiset(ids)[id] == 1 + multiset(QueueIds(s.queue))[id]
                                  + multiset(CompletedIds(s.completedTasks))[id];
  }

  // ---------------------------------------------------------------------------
  // Transitions

  /** `pauseCurrentTask`: with no active task nothing changes; otherwise the active task
      goes to the front of the queue, its running session folded into `accumulatedTime`. */
  function Pause(s: StoreState, now: int): (r: StoreState)
    ensures s.activeTask.None? ==> r == s
    ensures s.activeTask.Some? ==>
              var a := s.activeTask.value;
              && r.activeTask.None?
              && |r.queue| == |s.queue| + 1 && r.queue[1..] == s.queue
              && r.queue[0].id == a.id && r.queue[0].name == a.name
              && r.queue[0].project == a.project && r.queue[0].category == a.category
              && r.queue[0].accumulatedTime == a.accumulatedTime + (now - a.startTime)
              && r.queue[0].lastPausedAt == now
    ensures r.completedTasks == s.completedTasks
    ensures r.projectHistory == s.projectHistory && r.categoryHistory == s.categoryHistory
  {
    match s.activeTask
    case None => s
    case Some(a) => s.(activeTask := None, queue := [Paused(a, now)] + s.queue)
  }

  /** `startNewTask`: the current task, if any, is paused first; the new task becomes
      active with no earlier work; project and category are remembered. */
  function Start(s: StoreState, name: string, project: string, category: string, id: TaskId, now: int)
    : (r: StoreState)
    ensures r.activeTask == Some(ActiveTask(id, name, project, category, 0, now))
    ensures r.queue == Pause(s, now).queue
    ensures r.completedTasks == s.completedTasks
    ensures r.projectHistory == Remember(s.projectHistory, project)
    ensures r.categoryHistory == Remember(s.categoryHistory, category)
  {
    Pause(s, now).(
      activeTask := Some(ActiveTask(id, name, project, category, 0, now)),
      projectHistory := Remember(s.projectHistory, project),
      categoryHistory := Remember(s.categoryHistory, category))
  }

  /** `resumeTask`: an id that is not queued changes nothing; otherwise the current task,
      if any, is paused, every queue entry with that id is dropped and the entry found
      becomes active, keeping its accumulated time, with a session starting at `now`. */
  function Resume(s: StoreState, taskId: TaskId, now: int): (r: StoreState)
    ensures taskId !in QueueIds(s.queue) ==> r == s
    ensures taskId in QueueIds(s.queue) ==>
              var t := s.queue[IndexOfId(s.queue, taskId)];
              && r.activeTask == Some(ActiveTask(t.id, t.name, t.project, t.category, t.accumulatedTime, now))
              && r.queue == RemoveId(Pause(s, now).queue, taskId)
              && taskId !in QueueIds(r.queue)
    ensures r.completedTasks == s.completedTasks
    ensures r.projectHistory == s.projectHistory && r.categoryHistory == s.categoryHistory
  {
    match FindQueued(s.queue, taskId)
    case None => s
    case Some(t) =>
      var paused := Pause(s, now);
      paused.(activeTask := Some(Resumed(t, now)), queue := RemoveId(paused.queue, taskId))
  }

  /** `finishCurrentTask`: with no active task nothing changes; otherwise one record is
      appended to the log, carrying the task's fields, the work before the last session,
      `completedAt = now` and the total work, and nothing is active any more. */
  function Finish(s: StoreState, now: int): (r: StoreState)
    ensures s.activeTask.None? ==> r == s
    ensures s.activeTask.Some? ==>
              && r.activeTask.None?
              && |r.completedTasks| == |s.completedTasks| + 1
              && r.completedTasks[..|s.completedTasks|] == s.completedTasks
              && var a := s.activeTask.value;
              var c := r.completedTasks[|s.completedTasks|];
              && c.id == a.id && c.name == a.name && c.project == a.project && c.category == a.category
              && c.accumulatedTime == a.accumulatedTime
              && c.totalDuration == a.accumulatedTime + (now - a.startTime)
              && c.completedAt == now
    ensures r.queue == s.queue
    ensures r.projectHistory == s.projectHistory && r.categoryHistory == s.categoryHistory
  {
    match s.activeTask
    case None => s
    case Some(a) => s.(activeTask := None, completedTasks := s.completedTasks + [Completed(a, now)])
  }

  // ---------------------------------------------------------------------------
  // Every transition keeps the invariant and accounts for every id

  lemma {:induction false} QueueIdsSplit(q: seq<QueuedTask>, i: nat)
    requires i < |q|
    ensures QueueIds(q) == QueueIds(q[..i]) + [q[i].id] + QueueIds(q[i + 1..])
  {
    assert QueueIds(q) == QueueIds(q[..i]) + [q[i].id] + QueueIds(q[i + 1..]);
  }

  lemma QueueIdsCons(q: seq<QueuedTask>)
    requires q != []
    ensures QueueIds(q) == [q[0].id] + QueueIds(q[1..])
  {
  }

  /** When the id occurs once, `filter` removes exactly the entry found and keeps the
      order of the others. */
  lemma {:induction false} RemoveIdOnce(q: seq<QueuedTask>, id: TaskId)
    requires multiset(QueueIds(q))[id] == 1
    ensures IndexOfId(q, id) >= 0
    ensures var i := IndexOfId(q, id); RemoveId(q, id) == q[..i] + q[i + 1..]
  {
    assert QueueIds(q) != [];
    CountCons(q, id);
    if q[0].id == id {
      RemoveIdHead(q, id);
    } else {
      RemoveIdOnce(q[1..], id);
      RemoveIdBehindHead(q, id);
    }
  }

  /** The id at the head, and nowhere else: `filter` drops just the head. */
  lemma RemoveIdHead(q: seq<QueuedTask>, id: TaskId)
    requires q != [] && q[0].id == id && multiset(QueueIds(q[1..]))[id] == 0
    ensures IndexOfId(q, id) == 0 && RemoveId(q, id) == q[..0] + q[1..]
  {
    assert id !in QueueIds(q[1..]);
    assert q[..0] + q[1..] == q[1..];
  }

  /** The id behind the head, removed once from the rest: the head stays in front. */
  lemma RemoveIdBehindHead(q: seq<QueuedTask>, id: TaskId)
    requires q != [] && q[0].id != id && IndexOfId(q[1..], id) >= 0
    requires var k := IndexOfId(q[1..], id); RemoveId(q[1..], id) == q[1..][..k] + q[1..][k + 1..]
    ensures var i := IndexOfId(q, id); i >= 0 && RemoveId(q, id) == q[..i] + q[i + 1..]
  {
    var k := IndexOfId(q[1..], id);
    assert IndexOfId(q, id) == k + 1;
    assert RemoveId(q, id) == [q[0]] + RemoveId(q[1..], id);
    SpliceCons(q, k);
  }

  /** How often an id is queued, counted as the head plus the rest. */
  lemma CountCons(q: seq<QueuedTask>, id: TaskId)
    requires q != []
    ensures multiset(QueueIds(q))[id] == (if q[0].id == id then 1 else 0) + multiset(QueueIds(q[1..]))[id]
  {
    QueueIdsCons(q);
  }

  lemma SpliceCons<T>(q: seq<T>, k: nat)
    requires k + 1 < |q|
    ensures [q[0]] + (q[1..][..k] + q[1..][k + 1..]) == q[..k + 1] + q[k + 2..]
  {
  }

  lemma {:induction false} PauseKeepsIds(s: StoreState, now: int)
    ensures InProgressIds(Pause(s, now)) == InProgressIds(s)
    ensures Ids(Pause(s, now)) == Ids(s)
  {
    if s.activeTask.Some? {
      var r := Pause(s, now);
      assert QueueIds(r.queue) == [s.activeTask.value.id] + QueueIds(s.queue);
    }
  }

  /** Pausing keeps the invariant and the in-progress ids, in the same order. */
  lemma PauseKeepsConsistent(s: StoreState, now: int)
    requires Consistent(s)
    ensures Consistent(Pause(s, now))
    ensures InProgressIds(Pause(s, now)) == InProgressIds(s)
    ensures CompletedIds(Pause(s, now).completedTasks) == CompletedIds(s.completedTasks)
  {
    PauseKeepsIds(s, now);
  }

  lemma StartIds(s: StoreState, r: StoreState, id: TaskId, now: int)
    requires r.activeTask.Some? && r.activeTask.value.id == id
    requires r.queue == Pause(s, now).queue && r.completedTasks == s.completedTasks
    ensures InProgressIds(r) == [id] + InProgressIds(s)
    ensures Ids(r) == [id] + Ids(s)
  {
    PauseKeepsIds(s, now);
    assert InProgressIds(r) == [id] + QueueIds(Pause(s, now).queue);
  }

  lemma PrependFresh(ids: seq<TaskId>, id: TaskId)
    requires Distinct(ids) && id !in ids
    ensures Distinct([id] + ids)
  {
    assert multiset(ids)[id] == 0;
    forall x ensures multiset([id] + ids)[x] <= 1 {
      assert multiset([id] + ids)[x] == multiset{id}[x] + multiset(ids)[x];
    }
  }

  /** Starting adds exactly the fresh id to the tasks in progress and drops none. */
  lemma {:induction false} StartKeepsConsistent(s: StoreState, name: string, project: string, category: string,
                                            id: TaskId, now: int)
    requires Consistent(s) && IsFresh(s, id)
    ensures Consistent(Start(s, name, project, category, id, now))
    ensures multiset(InProgressIds(Start(s, name, project, category, id, now)))
            == multiset(InProgressIds(s)) + multiset{id}
    ensures CompletedIds(Start(s, name, project, category, id, now).completedTasks)
            == CompletedIds(s.completedTasks)
  {
    var r := Start(s, name, project, category, id, now);
    StartIds(s, r, id, now);
    PrependFresh(Ids(s), id);
    RememberKeepsHistoryOk(s.projectHistory, project);
    RememberKeepsHistoryOk(s.categoryHistory, category);
  }

  /** Taking out the entry at `i` removes exactly its id from the queue's ids. */
  lemma QueueIdsRemoveAt(q: seq<QueuedTask>, i: nat)
    requires i < |q|
    ensures multiset(QueueIds(q[..i] + q[i + 1..])) + multiset{q[i].id} == multiset(QueueIds(q))
  {
    QueueIdsSplit(q, i);
    assert QueueIds(q[..i] + q[i + 1..]) == QueueIds(q[..i]) + QueueIds(q[i + 1..]);
  }

  lemma QueuedOnce(s: StoreState, id: TaskId)
    requires Consistent(s) && id in QueueIds(s.queue)
    ensures multiset(QueueIds(s.queue))[id] == 1
  {
    assert Ids(s) == ActiveIds(s.activeTask) + QueueIds(s.queue) + CompletedIds(s.completedTasks);
    assert multiset(QueueIds(s.queue))[id] <= multiset(Ids(s))[id];
  }

  lemma {:induction false} ResumeKeepsIds(s: StoreState, taskId: TaskId, now: int)
    requires Consistent(s) && taskId in QueueIds(s.queue)
    ensures multiset(InProgressIds(Resume(s, taskId, now))) == multiset(InProgressIds(s))
  {
    var r := Resume(s, taskId, now);
    ResumedQueueIds(s, taskId, now);
    assert r.queue == RemoveId(Pause(s, now).queue, taskId);
    assert InProgressIds(r) == [taskId] + QueueIds(r.queue);
  }

  /** Pausing the active task and taking the resumed one out of the queue leaves every
      other task in progress queued. */
  lemma ResumedQueueIds(s: StoreState, taskId: TaskId, now: int)
    requires Consistent(s) && taskId in QueueIds(s.queue)
    ensures multiset(QueueIds(RemoveId(Pause(s, now).queue, taskId))) + multiset{taskId}
            == multiset(InProgressIds(s))
  {
    var q := s.queue;
    QueuedOnce(s, taskId);
    RemoveIdIds(q, taskId);
    if s.activeTask.Some? {
      PausedQueueKeepsActive(s, taskId, now);
      var newQueue := RemoveId(Pause(s, now).queue, taskId);
      QueueIdsCons(newQueue);
      assert InProgressIds(s) == [s.activeTask.value.id] + QueueIds(q);
    } else {
      assert InProgressIds(s) == QueueIds(q);
    }
  }

  /** Taking out an id that is queued once removes exactly that id from the ids. */
  lemma RemoveIdIds(q: seq<QueuedTask>, id: TaskId)
    requires multiset(QueueIds(q))[id] == 1
    ensures multiset(QueueIds(RemoveId(q, id))) + multiset{id} == multiset(QueueIds(q))
  {
    RemoveIdOnce(q, id);
    QueueIdsRemoveAt(q, IndexOfId(q, id));
  }

  /** A queued id other than the active one is taken out behind the paused task. */
  lemma PausedQueueKeepsActive(s: StoreState, taskId: TaskId, now: int)
    requires Consistent(s) && taskId in QueueIds(s.queue) && s.activeTask.Some?
    ensures var newQueue := RemoveId(Pause(s, now).queue, taskId);
            newQueue != [] && newQueue[0].id == s.activeTask.value.id && newQueue[1..] == RemoveId(s.queue, taskId)
  {
    ActiveIsAlone(s);
    var pq := Pause(s, now).queue;
    assert pq[0].id != taskId;
  }

  /** Resuming keeps the invariant and the set of tasks in progress. */
  lemma {:induction false} ResumeKeepsConsistent(s: StoreState, taskId: TaskId, now: int)
    requires Consistent(s)
    ensures Consistent(Resume(s, taskId, now))
    ensures multiset(InProgressIds(Resume(s, taskId, now))) == multiset(InProgressIds(s))
    ensures CompletedIds(Resume(s, taskId, now).completedTasks) == CompletedIds(s.completedTasks)
  {
    if taskId in QueueIds(s.queue) {
      var r := Resume(s, taskId, now);
      ResumeKeepsIds(s, taskId, now);
      assert multiset(Ids(r)) == multiset(Ids(s));
    }
  }

  /** Finishing moves exactly the active id from the tasks in progress to the end of the log. */
  lemma {:induction false} FinishKeepsConsistent(s: StoreState, now: int)
    requires Consistent(s)
    ensures Consistent(Finish(s, now))
    ensures s.activeTask.Some? ==>
              && InProgressIds(Finish(s, now)) == QueueIds(s.queue)
              && InProgressIds(s) == [s.activeTask.value.id] + QueueIds(s.queue)
              && CompletedIds(Finish(s, now).completedTasks)
                 == CompletedIds(s.completedTasks) + [s.activeTask.value.id]
  {
    if s.activeTask.Some? {
      var r := Finish(s, now);
      var id := s.activeTask.value.id;
      assert CompletedIds(r.completedTasks) == CompletedIds(s.completedTasks) + [id];
      assert Ids(r) == QueueIds(s.queue) + CompletedIds(s.completedTasks) + [id];
      assert Ids(s) == [id] + QueueIds(s.queue) + CompletedIds(s.completedTasks);
      assert multiset(Ids(r)) == multiset(Ids(s));
    }
  }

  // ---------------------------------------------------------------------------
  // Time accounting across transitions

  /** Pausing at a time not before the session start never loses work. */
  lemma PauseNeverLosesTime(s: StoreState, now: int)
    requires s.activeTask.Some? && now >= s.activeTask.value.startTime
    ensures Pause(s, now).queue[0].accumulatedTime >= s.activeTask.value.accumulatedTime
  {
  }

  /** Work adds up over a pause: start at `t0`, pause at `t1`, resume at `t2`, finish at
      `t3` records `(t1 - t0) + (t3 - t2)`, and leaves the rest of the store as it was. */
  lemma {:induction false} SessionsAddUp(s: StoreState, name: string, project: string, category: string,
                                          id: TaskId, t0: int, t1: int, t2: int, t3: int)
    requires Consistent(s) && IsFresh(s, id) && s.activeTask.None?
    ensures var s1 := Start(s, name, project, category, id, t0);
            var s4 := Finish(Resume(Pause(s1, t1), id, t2), t3);
            && s4.activeTask.None?
            && s4.queue == s.queue
            && s4.completedTasks
               == s.completedTasks + [CompletedTask(id, name, project, category, t1 - t0, t3, (t1 - t0) + (t3 - t2))]
  {
    var s1 := Start(s, name, project, category, id, t0);
    var s2 := Pause(s1, t1);
    var s3 := Resume(s2, id, t2);
    ResumeAfterPause(s, s2, id, t2);
    assert s3.activeTask == Some(ActiveTask(id, name, project, category, t1 - t0, t2));
    var s4 := Finish(s3, t3);
    assert s4.completedTasks == s.completedTasks + [s4.completedTasks[|s.completedTasks|]];
  }

  /** Resuming the task that was just paused in front of an untouched queue gives that
      queue back. */
  lemma ResumeAfterPause(s: StoreState, s2: StoreState, id: TaskId, now: int)
    requires s2.activeTask.None? && |s2.queue| == |s.queue| + 1 && s2.queue[1..] == s.queue
    requires s2.queue[0].id == id && id !in QueueIds(s.queue)
    ensures IndexOfId(s2.queue, id) == 0
    ensures Resume(s2, id, now).queue == s.queue
  {
    assert QueueIds(s2.queue)[0] == id;
    assert s2.queue == [s2.queue[0]] + s.queue;
    assert RemoveId(s2.queue, id) == RemoveId(s.queue, id);
  }

  /** Finishing records exactly the work a pause at the same moment would have kept. */
  lemma FinishAgreesWithPause(s: StoreState, now: int)
    requires s.activeTask.Some?
    ensures Finish(s, now).completedTasks[|s.completedTasks|].totalDuration
            == Pause(s, now).queue[0].accumulatedTime
  {
  }

  // ---------------------------------------------------------------------------
  // The store object

  /** The store's five fields; each action replaces some of them, as `set` does. */
  class Store {
    var activeTask: Option<ActiveTask>
    var queue: seq<QueuedTask>
    var completedTasks: seq<CompletedTask>
    var projectHistory: seq<string>
    var categoryHistory: seq<string>

    function State(): StoreState
      reads this
    {
      StoreState(activeTask, queue, completedTasks, projectHistory, categoryHistory)
    }

    ghost predicate Valid()
      reads this
    {
      Consistent(State())
    }

    constructor ()
      ensures State() == Initial && Valid()
    {
      activeTask := None;
      queue := [];
      completedTasks := [];
      projectHistory := [];
      categoryHistory := [];
      new;
      InitialConsistent();
    }

    method PauseCurrentTask(now: int)
      requires Valid()
      modifies this
      ensures Valid()
      ensures State() == Pause(old(State()), now)
    {
      if activeTask.None? {
        return;
      }
      PauseKeepsConsistent(State(), now);
      var active := activeTask.value;
      var queued := Paused(active, now);
      activeTask, queue := None, [queued] + queue;
    }

    method StartNewTask(name: string, project: string, category: string, id: TaskId, now: int)
      requires Valid() && IsFresh(State(), id)
      modifies this
      ensures Valid()
      ensures State() == Start(old(State()), name, project, category, id, now)
    {
      ghost var before := State();
      StartKeepsConsistent(before, name, project, category, id, now);
      var oldProjects, oldCategories := projectHistory, categoryHistory;
      if activeTask.Some? {
        PauseCurrentTask(now);
      }
      assert State() == Pause(before, now);
      var newTask := ActiveTask(id, name, project, category, 0, now);
      activeTask := Some(newTask);
      projectHistory := Remember(oldProjects, project);
      categoryHistory := Remember(oldCategories, category);
      assert State() == Start(before, name, project, category, id, now);
    }

    method ResumeTask(taskId: TaskId, now: int)
      requires Valid()
      modifies this
      ensures Valid()
      ensures State() == Resume(old(State()), taskId, now)
    {
      ghost var s0 := State();
      ResumeKeepsConsistent(s0, taskId, now);
      var taskToResume := FindQueued(queue, taskId);
      if taskToResume.None? {
        return;
      }
      if activeTask.Some? {
        PauseCurrentTask(now);
      }
      assert State() == Pause(s0, now);
      var newQueue := RemoveId(queue, taskId);
      var resumed := Resumed(taskToResume.value, now);
      activeTask, queue := Some(resumed), newQueue;
      assert State() == Resume(s0, taskId, now);
    }

    method FinishCurrentTask(now: int)
      requires Valid()
      modifies this
      ensures Valid()
      ensures State() == Finish(old(State()), now)
    {
      if activeTask.None? {
        return;
      }
      FinishKeepsConsistent(State(), now);
      var active := activeTask.value;
      var completed := Completed(active, now);
      completedTasks, activeTask := completedTasks + [completed], None;
    }
  }
}
