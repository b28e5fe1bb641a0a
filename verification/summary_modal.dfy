/** The daily report: total focus time as hours and minutes, the average task length in
    minutes, the tasks longest first, the feedback line, the per-task duration label and
    the count of tasks still pending. */
module SummaryModal {
  import opened Text
  import opened Sorting
  import opened TimeFormat
  import opened GameStore
  import opened CompletedLog

  /** `avgDuration`: the mean `totalDuration` in minutes, rounded; 0 for an empty log. */
  function AvgDuration(c: seq<CompletedTask>): (minutes: int)
    ensures |c| == 0 ==> minutes == 0
    ensures |c| > 0 ==>
              var den := |c| * MsPerMinute;
              2 * den * minutes - den <= 2 * TotalDuration(c) < 2 * den * minutes + den
  {
    if |c| > 0 then RoundDiv(TotalDuration(c), |c| * MsPerMinute) else 0
  }

  /** The average of a log of non-negative durations is not negative. */
  lemma AvgDurationNonNegative(c: seq<CompletedTask>)
    requires NoNegativeDurations(c)
    ensures AvgDuration(c) >= 0
  {
    DurationForBounds(c, "");
    if |c| > 0 {
      RoundDivNonNegative(TotalDuration(c), |c| * MsPerMinute);
    }
  }

  /** The hours and minutes of the total are its whole minutes, minutes below 60. */
  lemma TotalReading(c: seq<CompletedTask>)
    requires NoNegativeDurations(c)
    ensures HoursOf(TotalDuration(c)) >= 0 && 0 <= MinutesOf(TotalDuration(c)) < 60
    ensures HoursOf(TotalDuration(c)) * 60 + MinutesOf(TotalDuration(c)) == TotalDuration(c) / MsPerMinute
  {
    DurationForBounds(c, "");
    HoursAndMinutes(TotalDuration(c));
  }

  function Duration(t: CompletedTask): int {
    t.totalDuration
  }

  /** `[...completedTasks].sort((a, b) => b.totalDuration - a.totalDuration)`: the same
      tasks, longest first; tasks of equal length keep their order (see
      `Sorting.SortDescStable`). */
  function SortedTasks(c: seq<CompletedTask>): (r: seq<CompletedTask>)
    ensures multiset(r) == multiset(c)
    ensures forall i, j :: 0 <= i < j < |r| ==> r[i].totalDuration >= r[j].totalDuration
  {
    var r := SortDesc(c, Duration);
    assert NonIncreasing(r, Duration);
    r
  }

  /** Which message `generateFeedback` shows, with the numbers it fills in. */
  datatype Feedback =
    | NothingDoneYet
    | DeepWork(hours: int, mins: int)
    | ManyTasks(count: nat)
    | GoodPace

  const DeepWorkMs := 4 * MsPerHour
  const ManyTasksCount := 5

  /** The first that applies of: nothing completed; more than four hours in total; at
      least five tasks; otherwise a steady pace. */
  function GenerateFeedback(c: seq<CompletedTask>): (f: Feedback)
    ensures f.NothingDoneYet? <==> |c| == 0
    ensures f.DeepWork? <==> |c| > 0 && TotalDuration(c) > DeepWorkMs
    ensures f.ManyTasks? <==> |c| >= ManyTasksCount && TotalDuration(c) <= DeepWorkMs
    ensures f.GoodPace? <==> 0 < |c| < ManyTasksCount && TotalDuration(c) <= DeepWorkMs
    ensures f.DeepWork? ==> f.hours == HoursOf(TotalDuration(c)) && f.mins == MinutesOf(TotalDuration(c))
    ensures f.ManyTasks? ==> f.count == |c|
  {
    var total := TotalDuration(c);
    if |c| == 0 then NothingDoneYet
    else if total > DeepWorkMs then DeepWork(HoursOf(total), MinutesOf(total))
    else if |c| >= ManyTasksCount then ManyTasks(|c|)
    else GoodPace
  }

  /** The deep-work message always names at least four hours and a minute count on the
      clock face. */
  lemma DeepWorkNamesHours(c: seq<CompletedTask>)
    requires GenerateFeedback(c).DeepWork?
    ensures GenerateFeedback(c).hours >= 4 && 0 <= GenerateFeedback(c).mins < 60
  {
    Decompose(TotalDuration(c));
  }

  /** `formatDuration(seconds)`: `"{h}h {m}m"` from one hour on, `"{m}m"` below. */
  function FormatDuration(ms: int): (r: string)
    ensures |r| >= 2 && r[|r| - 1] == 'm'
  {
    var h := HoursOf(ms);
    var m := MinutesOf(ms);
    if h > 0 then IntToString(h) + "h " + IntToString(m) + "m" else IntToString(m) + "m"
  }

  lemma NoLetterInNumber(n: int)
    ensures 'h' !in IntToString(n)
  {
  }

  /** The label shows an hour part exactly for durations of an hour or more. */
  lemma FormatDurationShowsHours(ms: int)
    ensures 'h' in FormatDuration(ms) <==> ms >= MsPerHour
  {
    var h, m := HoursOf(ms), MinutesOf(ms);
    NoLetterInNumber(m);
    NoLetterInNumber(h);
    if h > 0 {
      var r := FormatDuration(ms);
      assert r[|IntToString(h)|] == 'h';
    } else {
      assert FormatDuration(ms) == IntToString(m) + "m";
    }
  }

  /** Reads a label `"{h}h {m}m"` or `"{m}m"` back into its hours and minutes. */
  function ParseDuration(text: string): Option<(nat, nat)> {
    if text == [] || text[|text| - 1] != 'm' then None
    else
      var body := text[..|text| - 1];
      var k := IndexOfChar(body, 'h');
      if k < 0 then
        if body != [] && AllDigits(body) then Some((0, ParseNat(body))) else None
      else if 0 < k && k + 2 < |body| && body[k + 1] == ' ' && AllDigits(body[..k]) && AllDigits(body[k + 2..]) then
        Some((ParseNat(body[..k]), ParseNat(body[k + 2..])))
      else None
  }

  /** For a non-negative duration the label reads back as its hours and its minutes
      below 60, which together make its whole minutes. */
  lemma FormatDurationReadsBack(ms: int)
    requires ms >= 0
    ensures var p := ParseDuration(FormatDuration(ms));
            && p.Some?
            && p.value.0 == HoursOf(ms) && p.value.1 == MinutesOf(ms)
            && p.value.1 < 60 && p.value.0 * 60 + p.value.1 == ms / MsPerMinute
  {
    var h, m := HoursOf(ms), MinutesOf(ms);
    HoursAndMinutes(ms);
    var hours, mins := IntToString(h), IntToString(m);
    NoLetterInNumber(h);
    NoLetterInNumber(m);
    var text := FormatDuration(ms);
    if h > 0 {
      var body := hours + "h " + mins;
      assert text == body + "m";
      assert text[..|text| - 1] == body;
      assert body[..|hours|] == hours && body[|hours|] == 'h';
      IndexOfCharAt(body, 'h', |hours|);
      assert body[|hours| + 1] == ' ';
      assert body[|hours| + 2..] == mins;
    } else {
      assert text == mins + "m";
      assert text[..|text| - 1] == mins;
    }
  }

  /** `{queue.length}{activeTask ? '+1' : ''}`. */
  function PendingLabel(queueLength: nat, hasActive: bool): (r: string)
    ensures |r| >= 1
  {
    NatToString(queueLength) + (if hasActive then "+1" else "")
  }

  /** The label reads back as the queue length, with `+1` exactly when a task is active. */
  lemma PendingLabelReadsBack(queueLength: nat, hasActive: bool)
    ensures var r := PendingLabel(queueLength, hasActive);
            var digits := if hasActive then r[..|r| - 2] else r;
            && ('+' in r <==> hasActive)
            && (hasActive ==> r[|r| - 2..] == "+1")
            && AllDigits(digits) && ParseNat(digits) == queueLength
  {
    var r := PendingLabel(queueLength, hasActive);
    var n := NatToString(queueLength);
    ParseNatToString(queueLength);
    assert '+' !in n;
    if hasActive {
      assert r[..|r| - 2] == n;
      assert r[|r| - 2] == '+';
      assert r[|r| - 2..] == "+1";
    } else {
      assert r == n;
    }
  }

  /** The tasks the label counts are exactly the tasks in progress. */
  lemma PendingCountsInProgress(s: StoreState)
    ensures |s.queue| + (if s.activeTask.Some? then 1 else 0) == |InProgressIds(s)|
  {
  }
}
