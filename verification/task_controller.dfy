/** The task entry form with its running clock: the start guard and the defaults for
    project and category, the elapsed time shown for the active task, and the
    `HH:MM:SS` formatter. */
module TaskController {
  import opened Text
  import opened TimeFormat
  import opened GameStore

  const DefaultProject := "GENERAL"
  const DefaultCategory := "MISC"

  /** `value || fallback`: the empty string is falsy and gives way to the fallback. */
  function OrDefault(value: string, fallback: string): (r: string)
    ensures value != "" ==> r == value
    ensures value == "" ==> r == fallback
  {
    if value == "" then fallback else value
  }

  /** `handleStart`: a name that trims to nothing starts nothing and keeps the input;
      otherwise the untrimmed name is started, whether or not a task is already active
      (the button only changes its label), with `GENERAL` and `MISC` standing in for an
      empty project and category, and the name input is cleared. */
  method HandleStart(store: Store, taskName: string, project: string, category: string, id: TaskId, now: int)
    returns (nextTaskName: string)
    requires store.Valid() && IsFresh(store.State(), id)
    modifies store
    ensures store.Valid()
    ensures IsBlank(taskName) ==> store.State() == old(store.State()) && nextTaskName == taskName
    ensures !IsBlank(taskName) ==>
              && store.State() == Start(old(store.State()), taskName, OrDefault(project, DefaultProject),
                                        OrDefault(category, DefaultCategory), id, now)
              && nextTaskName == ""
  {
    TrimEmptyIffBlank(taskName);
    if Trim(taskName) == [] {
      return taskName;
    }
    store.StartNewTask(taskName, OrDefault(project, DefaultProject), OrDefault(category, DefaultCategory), id, now);
    nextTaskName := "";
  }

  /** The value the clock shows: with an active task, its earlier work plus the running
      session; without one, zero. */
  function DisplayedElapsed(active: Option<ActiveTask>, now: int): (ms: int)
    ensures active.None? ==> ms == 0
    ensures active.Some? ==> ms - active.value.accumulatedTime == now - active.value.startTime
  {
    match active
    case None => 0
    case Some(a) => Elapsed(a, now)
  }

  /** The clock shows exactly what finishing at that moment would record. */
  lemma DisplayedIsRecorded(s: StoreState, now: int)
    requires s.activeTask.Some?
    ensures DisplayedElapsed(s.activeTask, now) == Finish(s, now).completedTasks[|s.completedTasks|].totalDuration
  {
  }

  /** `formatTime(ms / 1000)`. */
  function FormatTime(ms: int): (r: string)
    ensures |r| >= 8
  {
    Pad2(IntToString(HoursOf(ms))) + ":" + Pad2(IntToString(MinutesOf(ms))) + ":"
      + Pad2(IntToString(SecondsOf(ms)))
  }

  /** Reads a clock string `H…H:MM:SS` back into its three numbers. */
  function ParseClock(text: string): Option<(nat, nat, nat)> {
    var n := |text|;
    if n < 8 || text[n - 3] != ':' || text[n - 6] != ':' then None
    else
      var hh, mm, ss := text[..n - 6], text[n - 5..n - 3], text[n - 2..];
      if AllDigits(hh) && AllDigits(mm) && AllDigits(ss) then Some((ParseNat(hh), ParseNat(mm), ParseNat(ss)))
      else None
  }

  /** A string built from three digit fields reads back as those fields. */
  lemma ReadClockFields(hh: string, mm: string, ss: string)
    requires |hh| >= 2 && |mm| == 2 && |ss| == 2
    requires AllDigits(hh) && AllDigits(mm) && AllDigits(ss)
    ensures ParseClock(hh + ":" + mm + ":" + ss) == Some((ParseNat(hh), ParseNat(mm), ParseNat(ss)))
  {
    ClockSlices(hh, mm, ss);
  }

  /** Where the separators and the three fields of `hh:mm:ss` sit, counted from the end. */
  lemma ClockSlices(hh: string, mm: string, ss: string)
    requires |mm| == 2 && |ss| == 2
    ensures var text := hh + ":" + mm + ":" + ss;
            var n := |text|;
            && n == |hh| + 6
            && text[n - 6] == ':' && text[n - 3] == ':'
            && text[..n - 6] == hh && text[n - 5..n - 3] == mm && text[n - 2..] == ss
  {
    var tail := ":" + mm + ":" + ss;
    var text := hh + tail;
    assert text == hh + ":" + mm + ":" + ss;
    var n := |text|;
    assert tail[1..3] == mm && tail[4..] == ss;
    assert text[..n - 6] == hh;
    assert text[n - 5..n - 3] == tail[1..3];
    assert text[n - 2..] == tail[4..];
  }

  /** For a non-negative duration the clock string is a proper reading: minutes and
      seconds are two digits below 60, and the three numbers read back give the whole
      seconds of the duration. */
  lemma {:induction false} FormatTimeReadsBack(ms: int)
    requires ms >= 0
    ensures var p := ParseClock(FormatTime(ms));
            && p.Some?
            && p.value.1 < 60 && p.value.2 < 60
            && p.value.0 * 3600 + p.value.1 * 60 + p.value.2 == ms / 1000
  {
    var h, m, s := HoursOf(ms), MinutesOf(ms), SecondsOf(ms);
    Decompose(ms);
    PaddedField(h);
    PaddedField(m);
    PaddedField(s);
    var hh, mm, ss := Pad2(IntToString(h)), Pad2(IntToString(m)), Pad2(IntToString(s));
    assert FormatTime(ms) == hh + ":" + mm + ":" + ss;
    ReadClockFields(hh, mm, ss);
  }

  /** One padded clock field of a natural number: digits that read back as the number,
      exactly two of them below 100. */
  lemma PaddedField(n: nat)
    ensures var f := Pad2(IntToString(n));
            && |f| >= 2 && AllDigits(f) && ParseNat(f) == n
            && (n < 100 ==> |f| == 2)
  {
    assert IntToString(n) == NatToString(n);
    PadNatRoundTrip(n);
  }
}
