/** The stacked task list: an input that starts a task under fixed labels, and a double
    click that completes a block, whether it is the active one or one waiting in the queue. */
module SimpleTaskStack {
  import opened Text
  import opened GameStore

  const StackProject := "General"
  const StackCategory := "Task"

  /** `handleDoubleClick(taskId, isActive)` as a state change. The active block is
      finished at `finishAt`; a queued block is first resumed at `resumeAt` and then
      finished. The two store actions read the clock separately. */
  function DoubleClick(s: StoreState, taskId: TaskId, isActive: bool, resumeAt: int, finishAt: int): (r: StoreState)
    ensures isActive ==> r == Finish(s, finishAt)
    ensures r.projectHistory == s.projectHistory && r.categoryHistory == s.categoryHistory
  {
    if isActive then Finish(s, finishAt) else Finish(Resume(s, taskId, resumeAt), finishAt)
  }

  /** Double-clicking a queued block completes that very task: it becomes the last record
      of the log, its total being its earlier work plus the moment between the two
      actions; the task that was active, if any, waits at the head of the queue,
      ahead of the rest of the queue without the finished task; nothing
      is active afterwards; and every other task stays where it was in progress. */
  lemma {:induction false} DoubleClickQueued(s: StoreState, taskId: TaskId, resumeAt: int, finishAt: int)
    requires Consistent(s) && taskId in QueueIds(s.queue)
    ensures var r := DoubleClick(s, taskId, false, resumeAt, finishAt);
            var t := s.queue[IndexOfId(s.queue, taskId)];
            && Consistent(r)
            && r.activeTask.None?
            && r.completedTasks == s.completedTasks + [CompletedTask(t.id, t.name, t.project, t.category,
                                                                     t.accumulatedTime, finishAt,
                                                                     t.accumulatedTime + (finishAt - resumeAt))]
            && r.queue == (if s.activeTask.Some? then [Paused(s.activeTask.value, resumeAt)] else [])
                          + RemoveId(s.queue, taskId)
            && multiset(QueueIds(r.queue)) + multiset{taskId} == multiset(InProgressIds(s))
  {
    var mid := Resume(s, taskId, resumeAt);
    var r := Finish(mid, finishAt);
    ResumeKeepsConsistent(s, taskId, resumeAt);
    FinishKeepsConsistent(mid, finishAt);
    var i := IndexOfId(s.queue, taskId);
    assert mid.activeTask.value.id == taskId;
    assert r.completedTasks == s.completedTasks + [r.completedTasks[|s.completedTasks|]];
    if s.activeTask.Some? {
      var pq := Pause(s, resumeAt).queue;
      assert pq[0].id != taskId by {
        ActiveIsAlone(s);
      }
      assert RemoveId(pq, taskId) == [pq[0]] + RemoveId(pq[1..], taskId);
      assert pq[1..] == s.queue;
    }
    assert InProgressIds(mid) == [taskId] + QueueIds(mid.queue);
    assert multiset(InProgressIds(mid)) == multiset{taskId} + multiset(QueueIds(mid.queue));
  }

  /** An id that is no longer queued is not resumed: the click finishes whatever is
      active, and with nothing active it changes nothing. */
  lemma DoubleClickStale(s: StoreState, taskId: TaskId, resumeAt: int, finishAt: int)
    requires taskId !in QueueIds(s.queue)
    ensures DoubleClick(s, taskId, false, resumeAt, finishAt) == Finish(s, finishAt)
    ensures s.activeTask.None? ==> DoubleClick(s, taskId, false, resumeAt, finishAt) == s
  {
  }

  /** `handleSubmit`: a whitespace-only input starts nothing; otherwise the input,
      untrimmed, is started under project `General` and category `Task` and the input is
      cleared. */
  method HandleSubmit(store: Store, input: string, id: TaskId, now: int) returns (nextInput: string)
    requires store.Valid() && IsFresh(store.State(), id)
    modifies store
    ensures store.Valid()
    ensures IsBlank(input) ==> store.State() == old(store.State()) && nextInput == input
    ensures !IsBlank(input) ==>
              store.State() == Start(old(store.State()), input, StackProject, StackCategory, id, now) && nextInput == ""
  {
    TrimEmptyIffBlank(input);
    if Trim(input) == [] {
      return input;
    }
    store.StartNewTask(input, StackProject, StackCategory, id, now);
    nextInput := "";
  }

  method HandleDoubleClick(store: Store, taskId: TaskId, isActive: bool, resumeAt: int, finishAt: int)
    requires store.Valid()
    modifies store
    ensures store.Valid()
    ensures store.State() == DoubleClick(old(store.State()), taskId, isActive, resumeAt, finishAt)
  {
    if isActive {
      store.FinishCurrentTask(finishAt);
    } else {
      store.ResumeTask(taskId, resumeAt);
      store.FinishCurrentTask(finishAt);
    }
  }
}
