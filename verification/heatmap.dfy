/** The 24-cell heatmap of the day: for each hour, the time the completed tasks spent in
    it, read as an intensity from 0 to 4 and shown as one of five colours.

    A task is taken to have run without a break over the interval that ends at its
    `completedAt` and is `totalDuration` long. Times are milliseconds; the source's
    `totalSeconds` is the sum below divided by 1000, so comparing it with 60, 600 and
    1800 seconds is comparing the sum with 60000, 600000 and 1800000. */
module Heatmap {
  import opened Seqs
  import opened GameStore

  const HourMs := 3600000
  const MinuteMs := 60000
  const HoursPerDay := 24

  /** Length of the intersection of the intervals `[a0, a1)` and `[b0, b1)`, or 0 when
      they do not meet. */
  function Overlap(a0: int, a1: int, b0: int, b1: int): (ms: int)
    ensures ms >= 0
    ensures ms > 0 <==> a0 < a1 && b0 < b1 && a0 < b1 && b0 < a1
    ensures a0 <= a1 ==> ms <= a1 - a0
    ensures b0 <= b1 ==> ms <= b1 - b0
    ensures b0 <= a0 <= a1 <= b1 ==> ms == a1 - a0
  {
    var lo := if a0 > b0 then a0 else b0;
    var hi := if a1 < b1 then a1 else b1;
    if hi > lo then hi - lo else 0
  }

  /** Cutting the second interval in two cuts the overlap in two. */
  lemma OverlapSplit(a0: int, a1: int, b0: int, m: int, b1: int)
    requires b0 <= m <= b1
    ensures Overlap(a0, a1, b0, m) + Overlap(a0, a1, m, b1) == Overlap(a0, a1, b0, b1)
  {
  }

  /** `completedAt - totalDuration`: when the task is taken to have started. */
  function TaskStart(t: CompletedTask): (start: int)
    ensures t.completedAt - start == t.totalDuration
    ensures t.totalDuration >= 0 ==> start <= t.completedAt
  {
    t.completedAt - t.totalDuration
  }

  function HourStart(startOfDay: int, hour: int): (start: int)
    ensures 0 <= hour < HoursPerDay ==> startOfDay <= start && start + HourMs <= startOfDay + HoursPerDay * HourMs
  {
    startOfDay + hour * HourMs
  }

  /** The part of one task that falls in the hour beginning at `hourStart`. */
  function Contribution(t: CompletedTask, hourStart: int): (ms: int)
    ensures 0 <= ms <= HourMs
    ensures ms > 0 ==> TaskStart(t) < hourStart + HourMs && hourStart < t.completedAt
  {
    Overlap(TaskStart(t), t.completedAt, hourStart, hourStart + HourMs)
  }

  /** The time all tasks spent in one hour, summed in list order as `forEach` does. */
  function HourTotal(tasks: seq<CompletedTask>, hourStart: int): (ms: int)
    ensures 0 <= ms <= |tasks| * HourMs
  {
    if tasks == [] then 0
    else HourTotal(tasks[..|tasks| - 1], hourStart) + Contribution(tasks[|tasks| - 1], hourStart)
  }

  /** The 0-4 scale: 0 only for an hour with no time at all; then below one minute, below
      ten minutes, below thirty minutes, and thirty minutes or more. */
  function Intensity(totalMs: int): (level: int)
    ensures 0 <= level <= 4
    ensures level == 0 <==> totalMs == 0
    ensures level == 1 <==> totalMs != 0 && totalMs < MinuteMs
    ensures level == 2 <==> MinuteMs <= totalMs < 10 * MinuteMs
    ensures level == 3 <==> 10 * MinuteMs <= totalMs < 30 * MinuteMs
    ensures level == 4 <==> totalMs >= 30 * MinuteMs
  {
    if totalMs == 0 then 0
    else if totalMs < MinuteMs then 1
    else if totalMs < 10 * MinuteMs then 2
    else if totalMs < 30 * MinuteMs then 3
    else 4
  }

  /** More time in an hour never lowers its intensity. */
  lemma IntensityMonotone(a: int, b: int)
    requires 0 <= a <= b
    ensures Intensity(a) <= Intensity(b)
  {
  }

  /** `getIntensity(hour)` for the day beginning at `startOfDay`. */
  method GetIntensity(tasks: seq<CompletedTask>, startOfDay: int, hour: int) returns (level: int)
    ensures level == Intensity(HourTotal(tasks, HourStart(startOfDay, hour)))
  {
    var hourStart := startOfDay + hour * HourMs;
    var hourEnd := hourStart + HourMs;
    var total := 0;
    var i := 0;
    while i < |tasks|
      invariant 0 <= i <= |tasks|
      invariant total == HourTotal(tasks[..i], hourStart)
    {
      var t := tasks[i];
      var taskEnd := t.completedAt;
      var taskStart := t.completedAt - t.totalDuration;
      var overlapStart := if taskStart > hourStart then taskStart else hourStart;
      var overlapEnd := if taskEnd < hourEnd then taskEnd else hourEnd;
      if overlapEnd > overlapStart {
        total := total + (overlapEnd - overlapStart);
      }
      assert tasks[..i + 1][..i] == tasks[..i];
      i := i + 1;
    }
    assert tasks[..i] == tasks;
    level := Intensity(total);
  }

  lemma {:induction false} HourTotalAppend(a: seq<CompletedTask>, b: seq<CompletedTask>, hourStart: int)
    ensures HourTotal(a + b, hourStart) == HourTotal(a, hourStart) + HourTotal(b, hourStart)
    decreases |b|
  {
    if b == [] {
      assert a + b == a;
    } else {
      HourTotalAppend(a, b[..|b| - 1], hourStart);
      assert (a + b)[..|a + b| - 1] == a + b[..|b| - 1];
    }
  }

  lemma HourTotalRemoveAt(b: seq<CompletedTask>, j: nat, hourStart: int)
    requires j < |b|
    ensures HourTotal(b, hourStart) == HourTotal(b[..j] + b[j + 1..], hourStart) + Contribution(b[j], hourStart)
  {
    var front, back := b[..j], b[j + 1..];
    assert b == (front + [b[j]]) + back;
    HourTotalAppend(front, back, hourStart);
    HourTotalAppend(front + [b[j]], back, hourStart);
    HourTotalAppend(front, [b[j]], hourStart);
    assert [b[j]][..0] == [];
  }

  /** The hour's total does not depend on the order of the log. */
  lemma {:induction false} HourTotalPermutation(a: seq<CompletedTask>, b: seq<CompletedTask>, hourStart: int)
    requires multiset(a) == multiset(b)
    ensures HourTotal(a, hourStart) == HourTotal(b, hourStart)
    decreases |a|
  {
    if a != [] {
      var i := |a| - 1;
      var x := a[i];
      assert x in multiset(b);
      var j :| 0 <= j < |b| && b[j] == x;
      RemoveAtMultiset(a, i);
      RemoveAtMultiset(b, j);
      assert a[..i] + a[i + 1..] == a[..i];
      MultisetCancel(multiset(a[..i]), multiset(b[..j] + b[j + 1..]), x);
      HourTotalPermutation(a[..i], b[..j] + b[j + 1..], hourStart);
      HourTotalRemoveAt(b, j, hourStart);
    }
  }

  /** Each task's time counts towards the hour's total. */
  lemma {:induction false} HourTotalAtLeast(tasks: seq<CompletedTask>, hourStart: int, i: nat)
    requires i < |tasks|
    ensures HourTotal(tasks, hourStart) >= Contribution(tasks[i], hourStart)
  {
    if i < |tasks| - 1 {
      HourTotalAtLeast(tasks[..|tasks| - 1], hourStart, i);
    }
  }

  /** An hour that some task covered from start to end shows the top intensity. */
  lemma CoveredHourIsDeep(tasks: seq<CompletedTask>, hourStart: int, i: nat)
    requires i < |tasks|
    requires TaskStart(tasks[i]) <= hourStart && hourStart + HourMs <= tasks[i].completedAt
    ensures Intensity(HourTotal(tasks, hourStart)) == 4
  {
    HourTotalAtLeast(tasks, hourStart, i);
  }

  /** A task's time spread over the first `n` hours of the day. */
  function Spread(t: CompletedTask, startOfDay: int, n: nat): int {
    if n == 0 then 0 else Spread(t, startOfDay, n - 1) + Contribution(t, HourStart(startOfDay, n - 1))
  }

  /** No time is counted twice or lost between neighbouring cells: over the first `n`
      hours a task contributes exactly its overlap with those hours taken together. */
  lemma {:induction false} SpreadIsOverlap(t: CompletedTask, startOfDay: int, n: nat)
    ensures Spread(t, startOfDay, n) == Overlap(TaskStart(t), t.completedAt, startOfDay, HourStart(startOfDay, n))
  {
    if n > 0 {
      SpreadIsOverlap(t, startOfDay, n - 1);
      OverlapSplit(TaskStart(t), t.completedAt, startOfDay, HourStart(startOfDay, n - 1), HourStart(startOfDay, n));
    }
  }

  /** A task that ran inside the day is counted over the 24 cells exactly once. */
  lemma DayAccountsForTask(t: CompletedTask, startOfDay: int)
    requires t.totalDuration >= 0
    requires startOfDay <= TaskStart(t) && t.completedAt <= HourStart(startOfDay, HoursPerDay)
    ensures Spread(t, startOfDay, HoursPerDay) == t.totalDuration
  {
    SpreadIsOverlap(t, startOfDay, HoursPerDay);
  }

  /** `getColors(intensity)`. */
  function Colors(level: int): (style: string)
    ensures style == "bg-gray-100" <==> !(1 <= level <= 4)
  {
    match level
    case 0 => "bg-gray-100"
    case 1 => "bg-[#e6ffcc]"
    case 2 => "bg-[#ccff99]"
    case 3 => "bg-[#b3ff66]"
    case 4 => "bg-[#CCFF00]"
    case _ => "bg-gray-100"
  }

  /** The five levels get five different colours; anything else looks like level 0. */
  lemma ColorsTellLevelsApart(i: int, j: int)
    ensures 0 <= i < j <= 4 ==> Colors(i) != Colors(j)
    ensures !(0 <= i <= 4) ==> Colors(i) == Colors(0)
  {
  }
}
