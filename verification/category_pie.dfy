/** The pie chart of where the time went: completed time summed per task name, the five
    largest names, and one slice per name whose share of the shown total decides its
    arc. The slice geometry is kept as the cumulative shares at which each slice starts
    and ends, which are what the drawing turns into coordinates. */
module CategoryPie {
  import opened Seqs
  import opened Sorting
  import opened TimeFormat
  import opened GameStore
  import opened CompletedLog

  /** One `[name, value]` pair of `Object.entries(aggregation)`. */
  datatype Entry = Entry(name: string, value: int)

  function Value(e: Entry): int {
    e.value
  }

  /** The entries for the given names, each carrying the time logged under it. */
  function EntriesFor(c: seq<CompletedTask>, names: seq<string>): (r: seq<Entry>)
    ensures |r| == |names|
    ensures forall i :: 0 <= i < |r| ==> r[i].name == names[i] && r[i].value == DurationFor(c, names[i])
  {
    seq(|names|, i requires 0 <= i < |names| => Entry(names[i], DurationFor(c, names[i])))
  }

  /** The aggregation as a list: one entry per distinct name, in order of first
      completion. */
  function Aggregation(c: seq<CompletedTask>): (r: seq<Entry>)
    ensures |r| <= |c|
    ensures forall i :: 0 <= i < |r| ==> r[i].name in Names(c) && r[i].value == DurationFor(c, r[i].name)
  {
    EntriesFor(c, DistinctNames(c))
  }

  /** `reduce((acc, [, val]) => acc + val, 0)`. */
  function SumValues(es: seq<Entry>): (total: int)
    ensures NonNegativeValues(es) ==> total >= 0
  {
    if es == [] then 0 else SumValues(es[..|es| - 1]) + es[|es| - 1].value
  }

  /** The `reduce` that fills the record `acc[name] = (acc[name] || 0) + totalDuration`,
      followed by `Object.entries`: keys in order of first insertion. */
  method Aggregate(c: seq<CompletedTask>) returns (entries: seq<Entry>)
    ensures entries == Aggregation(c)
  {
    var acc: map<string, int> := map[];
    var keys: seq<string> := [];
    var i := 0;
    while i < |c|
      invariant 0 <= i <= |c|
      invariant RecordOf(c[..i], acc, keys)
    {
      var t := c[i];
      var acc0, keys0 := acc, keys;
      if t.name !in acc {
        keys := keys + [t.name];
      }
      var previous := if t.name in acc then acc[t.name] else 0;
      acc := acc[t.name := previous + t.totalDuration];
      AggregateStep(c, i, acc0, keys0, acc, keys);
      i := i + 1;
    }
    assert c[..i] == c;
    entries := seq(|keys|, j requires 0 <= j < |keys| => Entry(keys[j], acc[keys[j]]));
    EntriesOfRecord(c, acc, keys, entries);
  }

  /** `acc` and its insertion order `keys` hold, for the records `prefix`, each distinct
      name once with its summed duration. */
  ghost predicate RecordOf(prefix: seq<CompletedTask>, acc: map<string, int>, keys: seq<string>) {
    && keys == DistinctNames(prefix)
    && (forall n :: n in acc <==> n in keys)
    && (forall n :: n in acc ==> acc[n] == DurationFor(prefix, n))
  }

  /** Reading the finished record back key by key gives the aggregation. */
  lemma EntriesOfRecord(c: seq<CompletedTask>, acc: map<string, int>, keys: seq<string>, entries: seq<Entry>)
    requires RecordOf(c, acc, keys)
    requires |entries| == |keys|
    requires forall j :: 0 <= j < |keys| ==> entries[j] == Entry(keys[j], acc[keys[j]])
    ensures entries == Aggregation(c)
  {
  }

  /** One turn of the `reduce` in `Aggregate`: adding a record keeps the keys the
      distinct names and each value the name's sum. */
  lemma AggregateStep(c: seq<CompletedTask>, i: nat,
                      acc: map<string, int>, keys: seq<string>,
                      acc': map<string, int>, keys': seq<string>)
    requires i < |c| && RecordOf(c[..i], acc, keys)
    requires keys' == if c[i].name in acc then keys else keys + [c[i].name]
    requires acc' == acc[c[i].name := (if c[i].name in acc then acc[c[i].name] else 0) + c[i].totalDuration]
    ensures RecordOf(c[..i + 1], acc', keys')
  {
    PrefixStep(c, i);
    if c[i].name !in acc {
      DurationForAbsent(c[..i], c[i].name);
    }
    forall n | n in acc'
      ensures acc'[n] == DurationFor(c[..i + 1], n)
    {
      PrefixStep(c, i);
    }
  }

  /** One more record of the log: its name is added unless already there, and its
      duration counts for that name only. */
  lemma PrefixStep(c: seq<CompletedTask>, i: nat)
    requires i < |c|
    ensures DistinctNames(c[..i + 1])
            == if c[i].name in DistinctNames(c[..i]) then DistinctNames(c[..i]) else DistinctNames(c[..i]) + [c[i].name]
    ensures forall n ::
      DurationFor(c[..i + 1], n) == DurationFor(c[..i], n) + (if c[i].name == n then c[i].totalDuration else 0)
  {
    assert c[..i + 1][..i] == c[..i];
  }

  lemma {:induction false} SumEntriesStep(c: seq<CompletedTask>, t: CompletedTask, names: seq<string>)
    requires Distinct(names)
    ensures SumValues(EntriesFor(c + [t], names))
            == SumValues(EntriesFor(c, names)) + (if t.name in names then t.totalDuration else 0)
  {
    if names != [] {
      var front := names[..|names| - 1];
      var last := names[|names| - 1];
      DistinctSplitLast(names);
      SumEntriesStep(c, t, front);
      assert names == front + [last];
      SumEntriesAppendName(c + [t], front, last);
      SumEntriesAppendName(c, front, last);
      DurationForAppend(c, t, last);
    }
  }

  /** A record added at the end of the log counts for its own name only. */
  lemma DurationForAppend(c: seq<CompletedTask>, t: CompletedTask, n: string)
    ensures DurationFor(c + [t], n) == DurationFor(c, n) + (if t.name == n then t.totalDuration else 0)
  {
    assert (c + [t])[..|c|] == c;
  }

  lemma DistinctSplitLast(names: seq<string>)
    requires Distinct(names) && names != []
    ensures Distinct(names[..|names| - 1]) && names[|names| - 1] !in names[..|names| - 1]
  {
    var front := names[..|names| - 1];
    var last := names[|names| - 1];
    assert names == front + [last];
    assert multiset(names) == multiset(front) + multiset{last};
    forall x ensures multiset(front)[x] <= 1 {
      assert multiset(front)[x] <= multiset(names)[x];
    }
    assert multiset(names)[last] == multiset(front)[last] + 1;
  }

  lemma SumEntriesAppendName(c: seq<CompletedTask>, names: seq<string>, n: string)
    ensures SumValues(EntriesFor(c, names + [n])) == SumValues(EntriesFor(c, names)) + DurationFor(c, n)
  {
    var e := EntriesFor(c, names + [n]);
    assert e[..|names|] == EntriesFor(c, names);
    assert e[|names|].value == DurationFor(c, n);
  }

  /** Aggregating loses and invents no time: the entries add up to the whole log. */
  lemma {:induction false} AggregationAddsUp(c: seq<CompletedTask>)
    ensures SumValues(Aggregation(c)) == TotalDuration(c)
  {
    if c != [] {
      var front := c[..|c| - 1];
      var t := c[|c| - 1];
      var d := DistinctNames(front);
      assert c == front + [t];
      AggregationAddsUp(front);
      DistinctNamesDistinct(front);
      SumEntriesStep(front, t, d);
      if t.name !in d {
        assert DistinctNames(c) == d + [t.name];
        SumEntriesAppendName(c, d, t.name);
        DurationForAbsent(front, t.name);
      }
    }
  }

  /** Every entry has a name of the log, no name twice, and a non-negative value when
      no duration is negative. */
  lemma AggregationEntries(c: seq<CompletedTask>)
    ensures forall e :: e in Aggregation(c) ==> e.name in Names(c) && e.value == DurationFor(c, e.name)
    ensures forall n :: n in Names(c) ==> Entry(n, DurationFor(c, n)) in Aggregation(c)
    ensures Distinct(DistinctNames(c))
    ensures NoNegativeDurations(c) ==> forall e :: e in Aggregation(c) ==> e.value >= 0
  {
    DistinctNamesDistinct(c);
    var agg := Aggregation(c);
    var d := DistinctNames(c);
    forall n | n in Names(c) ensures Entry(n, DurationFor(c, n)) in agg {
      var k :| 0 <= k < |d| && d[k] == n;
      assert agg[k] == Entry(n, DurationFor(c, n));
    }
    if NoNegativeDurations(c) {
      forall e | e in agg ensures e.value >= 0 {
        DurationForBounds(c, e.name);
      }
    }
  }

  const TopCount: nat := 5

  /** `sort(([, a], [, b]) => b - a).slice(0, 5)`. */
  function Top(entries: seq<Entry>): (top: seq<Entry>)
    ensures |top| == Min(TopCount, |entries|)
    ensures multiset(top) <= multiset(entries)
    ensures NonIncreasing(top, Value)
    ensures forall e :: e in entries && e !in top ==> forall k :: 0 <= k < |top| ==> top[k].value >= e.value
  {
    var sorted := SortDesc(entries, Value);
    var top := Take(sorted, TopCount);
    TopIsLargest(entries, Value, TopCount);
    assert multiset(top) <= multiset(entries);
    forall e | e in entries && e !in top ensures forall k :: 0 <= k < |top| ==> top[k].value >= e.value {
      assert e in multiset(sorted);
      var j :| 0 <= j < |sorted| && sorted[j] == e;
      assert j >= |top|;
    }
    top
  }

  /** On ties the earliest entries are kept: for every value, the kept entries with that
      value are the first ones with it in aggregation order. */
  lemma TopKeepsEarliestTies(entries: seq<Entry>)
    ensures forall k :: WithKey(Top(entries), Value, k) <= WithKey(entries, Value, k)
  {
    var sorted := SortDesc(entries, Value);
    var top := Top(entries);
    assert top == sorted[..|top|];
    forall k ensures WithKey(top, Value, k) <= WithKey(entries, Value, k) {
      SortDescStable(entries, Value, k);
      WithKeyPrefix(sorted, |top|, Value, k);
    }
  }

  /** One slice: its share of the shown total, the cumulative shares where it starts and
      ends, and the flag that picks the long way round for a share above one half. */
  datatype Slice = Slice(name: string, value: int, percent: real, startPercent: real, endPercent: real,
                         largeArcFlag: int)

  datatype Chart = NoData | Pie(slices: seq<Slice>)

  function Share(value: int, total: int): (share: real)
    requires total != 0
    ensures share * total as real == value as real
  {
    value as real / total as real
  }

  function SliceAt(top: seq<Entry>, total: int, i: nat): (s: Slice)
    requires total != 0 && i < |top|
    ensures s.name == top[i].name && s.value == top[i].value
    ensures s.endPercent - s.startPercent == s.percent == Share(top[i].value, total)
    ensures s.largeArcFlag == 1 <==> s.percent > 0.5
    ensures s.largeArcFlag == 0 <==> s.percent <= 0.5
  {
    assert top[..i + 1][..i] == top[..i];
    ShareAdd(SumValues(top[..i]), top[i].value, total);
    var percent := Share(top[i].value, total);
    Slice(top[i].name, top[i].value, percent, Share(SumValues(top[..i]), total),
          Share(SumValues(top[..i + 1]), total), if percent > 0.5 then 1 else 0)
  }

  function Slices(top: seq<Entry>, total: int): (r: seq<Slice>)
    requires total != 0
    ensures |r| == |top|
    ensures forall i :: 0 <= i < |r| ==> r[i].name == top[i].name && r[i].value == top[i].value
    ensures forall i :: 0 < i < |r| ==> r[i].startPercent == r[i - 1].endPercent
  {
    seq(|top|, i requires 0 <= i < |top| => SliceAt(top, total, i))
  }

  /** What the component draws for a log. */
  function ChartOf(c: seq<CompletedTask>): (chart: Chart)
    ensures chart.Pie? ==> 1 <= |chart.slices| <= TopCount
  {
    var top := Top(Aggregation(c));
    var total := SumValues(top);
    if total == 0 then NoData else Pie(Slices(top, total))
  }

  lemma ShareAdd(a: int, b: int, total: int)
    requires total != 0
    ensures Share(a, total) + Share(b, total) == Share(a + b, total)
  {
  }

  /** The slice walk: each share is `value / total`, and the running sum of the shares
      gives where each slice starts and ends. */
  method BuildSlices(top: seq<Entry>, total: int) returns (slices: seq<Slice>)
    requires total != 0
    ensures slices == Slices(top, total)
  {
    slices := [];
    var cumulativePercent: real := 0.0;
    var i := 0;
    while i < |top|
      invariant 0 <= i <= |top|
      invariant |slices| == i
      invariant forall k :: 0 <= k < i ==> slices[k] == SliceAt(top, total, k)
      invariant cumulativePercent == Share(SumValues(top[..i]), total)
    {
      var e := top[i];
      var percent := e.value as real / total as real;
      var startPercent := cumulativePercent;
      SliceStep(top, total, i, cumulativePercent);
      cumulativePercent := cumulativePercent + percent;
      var largeArcFlag := if percent > 0.5 then 1 else 0;
      slices := slices + [Slice(e.name, e.value, percent, startPercent, cumulativePercent, largeArcFlag)];
      i := i + 1;
    }
  }

  /** One turn of the slice walk: the slice drawn from the running sum is `SliceAt`,
      and adding its share moves the running sum past it. */
  lemma SliceStep(top: seq<Entry>, total: int, i: nat, cumulative: real)
    requires total != 0 && i < |top| && cumulative == Share(SumValues(top[..i]), total)
    ensures var percent := Share(top[i].value, total);
            && SliceAt(top, total, i)
               == Slice(top[i].name, top[i].value, percent, cumulative, cumulative + percent,
                        if percent > 0.5 then 1 else 0)
            && cumulative + percent == Share(SumValues(top[..i + 1]), total)
  {
    ShareAdd(SumValues(top[..i]), top[i].value, total);
    assert top[..i + 1][..i] == top[..i];
  }

  /** The component: aggregate, keep the top five, sum them, and draw nothing or the
      slices. */
  method Render(c: seq<CompletedTask>) returns (chart: Chart)
    ensures chart == ChartOf(c)
  {
    var aggregation := Aggregate(c);
    var top := Top(aggregation);
    var total := SumValues(top);
    if total == 0 {
      return NoData;
    }
    var slices := BuildSlices(top, total);
    chart := Pie(slices);
  }

  predicate NonNegativeValues(es: seq<Entry>) {
    forall k :: 0 <= k < |es| ==> es[k].value >= 0
  }

  lemma {:induction false} PrefixSumsGrow(es: seq<Entry>, i: nat, j: nat)
    requires NonNegativeValues(es) && i <= j <= |es|
    ensures 0 <= SumValues(es[..i]) <= SumValues(es[..j])
    decreases j, i
  {
    if i < j {
      PrefixSumsGrow(es, i, j - 1);
      assert es[..j][..j - 1] == es[..j - 1];
    } else if i > 0 {
      PrefixSumsGrow(es, i - 1, i);
    }
  }

  lemma {:induction false} TwoValuesWithinSum(es: seq<Entry>, i: nat, j: nat)
    requires NonNegativeValues(es) && i < j < |es|
    ensures es[i].value + es[j].value <= SumValues(es)
  {
    var n := |es|;
    assert es[..n] == es;
    PrefixSumsGrow(es, i + 1, j);
    PrefixSumsGrow(es, j + 1, n);
    assert es[..i + 1][..i] == es[..i];
    assert es[..j + 1][..j] == es[..j];
    PrefixSumsGrow(es, 0, i);
  }

  lemma ShareBounds(a: int, total: int)
    requires 0 <= a <= total && total > 0
    ensures 0.0 <= Share(a, total) <= 1.0
  {
  }

  lemma ShareMonotone(a: int, b: int, total: int)
    requires a <= b && total > 0
    ensures Share(a, total) <= Share(b, total)
  {
  }

  lemma ShareWhole(total: int)
    requires total != 0
    ensures Share(total, total) == 1.0 && Share(0, total) == 0.0
  {
  }

  lemma SliceWithinCircle(top: seq<Entry>, k: nat)
    requires NonNegativeValues(top) && SumValues(top) > 0 && k < |top|
    ensures var s := SliceAt(top, SumValues(top), k);
            0.0 <= s.percent <= 1.0 && 0.0 <= s.startPercent <= s.endPercent <= 1.0
  {
    var total := SumValues(top);
    var before, after := SumValues(top[..k]), SumValues(top[..k + 1]);
    PrefixSumsGrow(top, k, k + 1);
    PrefixSumsGrow(top, k + 1, |top|);
    assert top[..|top|] == top;
    assert top[..k + 1][..k] == top[..k];
    assert after == before + top[k].value;
    ShareBounds(top[k].value, total);
    ShareBounds(before, total);
    ShareBounds(after, total);
    ShareMonotone(before, after, total);
  }

  lemma OneLongArc(top: seq<Entry>, k: nat, l: nat)
    requires NonNegativeValues(top) && SumValues(top) > 0 && k < l < |top|
    ensures SliceAt(top, SumValues(top), k).largeArcFlag + SliceAt(top, SumValues(top), l).largeArcFlag <= 1
  {
    TwoValuesWithinSum(top, k, l);
    SharesWithinWhole(top[k].value, top[l].value, SumValues(top));
  }

  lemma SharesWithinWhole(a: int, b: int, total: int)
    requires 0 <= a && 0 <= b && a + b <= total && total > 0
    ensures Share(a, total) + Share(b, total) <= 1.0
  {
    ShareAdd(a, b, total);
    ShareBounds(a + b, total);
  }

  lemma SlicesEnds(top: seq<Entry>)
    requires SumValues(top) != 0
    ensures SliceAt(top, SumValues(top), 0).startPercent == 0.0
    ensures SliceAt(top, SumValues(top), |top| - 1).endPercent == 1.0
  {
    var total := SumValues(top);
    assert top[..0] == [];
    assert top[..(|top| - 1) + 1] == top;
    ShareWhole(total);
  }

  /** With no negative values the slices tile the whole circle: each share lies between
      0 and 1, each slice starts where the previous one ended, the first at 0 and the
      last ending at 1, and at most one slice takes the long way round. */
  lemma SlicesTileCircle(top: seq<Entry>)
    requires NonNegativeValues(top) && SumValues(top) != 0
    ensures var s := Slices(top, SumValues(top));
            && (forall k :: 0 <= k < |s| ==> 0.0 <= s[k].percent <= 1.0)
            && (forall k :: 0 <= k < |s| ==> s[k].startPercent <= s[k].endPercent)
            && (forall k :: 0 < k < |s| ==> s[k].startPercent == s[k - 1].endPercent)
            && s[0].startPercent == 0.0
            && s[|s| - 1].endPercent == 1.0
            && (forall k, l :: 0 <= k < l < |s| ==> s[k].largeArcFlag + s[l].largeArcFlag <= 1)
  {
    var total := SumValues(top);
    PrefixSumsGrow(top, 0, |top|);
    assert top[..|top|] == top;
    assert top != [];
    SlicesEnds(top);
    SlicesWithinCircle(top);
    SlicesOneLongArc(top);
  }

  lemma SlicesWithinCircle(top: seq<Entry>)
    requires NonNegativeValues(top) && SumValues(top) > 0
    ensures var s := Slices(top, SumValues(top));
            forall k :: 0 <= k < |s| ==> 0.0 <= s[k].percent <= 1.0 && s[k].startPercent <= s[k].endPercent
  {
    var s := Slices(top, SumValues(top));
    forall k | 0 <= k < |s| ensures 0.0 <= s[k].percent <= 1.0 && s[k].startPercent <= s[k].endPercent {
      SliceWithinCircle(top, k);
    }
  }

  lemma SlicesOneLongArc(top: seq<Entry>)
    requires NonNegativeValues(top) && SumValues(top) > 0
    ensures var s := Slices(top, SumValues(top));
            forall k, l :: 0 <= k < l < |s| ==> s[k].largeArcFlag + s[l].largeArcFlag <= 1
  {
    var s := Slices(top, SumValues(top));
    forall k, l | 0 <= k < l < |s| ensures s[k].largeArcFlag + s[l].largeArcFlag <= 1 {
      OneLongArc(top, k, l);
    }
  }

  lemma AggregationNonNegative(c: seq<CompletedTask>)
    requires NoNegativeDurations(c)
    ensures NonNegativeValues(Aggregation(c)) && NonNegativeValues(Top(Aggregation(c)))
  {
    var agg := Aggregation(c);
    var top := Top(agg);
    AggregationEntries(c);
    forall k | 0 <= k < |top| ensures top[k].value >= 0 {
      assert top[k] in multiset(agg);
    }
  }

  /** Non-negative values that add up to 0 are all 0. */
  lemma ZeroSumZeroValues(es: seq<Entry>)
    requires NonNegativeValues(es) && SumValues(es) == 0
    ensures forall k :: 0 <= k < |es| ==> es[k].value == 0
  {
    assert es[..|es|] == es;
    forall k | 0 <= k < |es| ensures es[k].value == 0 {
      PrefixSumsGrow(es, k + 1, |es|);
      assert es[..k + 1][..k] == es[..k];
      PrefixSumsGrow(es, 0, k);
    }
  }

  lemma {:induction false} NoTimeNoData(c: seq<CompletedTask>)
    requires NoNegativeDurations(c) && TotalDuration(c) == 0
    ensures SumValues(Top(Aggregation(c))) == 0
  {
    var agg := Aggregation(c);
    AggregationNonNegative(c);
    AggregationAddsUp(c);
    ZeroSumZeroValues(agg);
    ZeroValuesSumToZero(Top(agg), agg);
  }

  lemma TopHoldsLargest(entries: seq<Entry>, e: Entry)
    requires e in entries
    ensures Top(entries) != [] && Top(entries)[0].value >= e.value
  {
    var top := Top(entries);
    if e in top {
      var m :| 0 <= m < |top| && top[m] == e;
      assert NonIncreasing(top, Value);
      if m > 0 {
        assert Value(top[0]) >= Value(top[m]);
      }
    }
  }

  lemma SumAtLeastFirst(es: seq<Entry>)
    requires NonNegativeValues(es) && es != []
    ensures SumValues(es) >= es[0].value
  {
    PrefixSumsGrow(es, 1, |es|);
    assert es[..|es|] == es;
    assert es[..1][..0] == [];
  }

  lemma {:induction false} SomeTimeSomeSlice(c: seq<CompletedTask>)
    requires NoNegativeDurations(c) && TotalDuration(c) != 0
    ensures SumValues(Top(Aggregation(c))) > 0
  {
    var agg := Aggregation(c);
    AggregationNonNegative(c);
    AggregationAddsUp(c);
    PrefixSumsGrow(agg, 0, |agg|);
    assert agg[..|agg|] == agg;
    var k := PositiveEntry(agg);
    TopHoldsLargest(agg, agg[k]);
    SumAtLeastFirst(Top(agg));
  }

  /** `NO DATA YET` is shown exactly when the log holds no time at all (durations being
      non-negative): if any name has time, the largest name is shown. */
  lemma NoDataExactlyWhenNoTime(c: seq<CompletedTask>)
    requires NoNegativeDurations(c)
    ensures ChartOf(c).NoData? <==> TotalDuration(c) == 0
  {
    if TotalDuration(c) == 0 {
      NoTimeNoData(c);
    } else {
      SomeTimeSomeSlice(c);
    }
  }

  lemma {:induction false} ZeroValuesSumToZero(top: seq<Entry>, agg: seq<Entry>)
    requires multiset(top) <= multiset(agg)
    requires forall k :: 0 <= k < |agg| ==> agg[k].value == 0
    ensures SumValues(top) == 0
  {
    if top != [] {
      var last := top[|top| - 1];
      assert top == top[..|top| - 1] + [last];
      assert last in multiset(agg);
      assert multiset(top[..|top| - 1]) <= multiset(top);
      ZeroValuesSumToZero(top[..|top| - 1], agg);
    }
  }

  lemma {:induction false} PositiveEntry(es: seq<Entry>) returns (k: nat)
    requires NonNegativeValues(es) && SumValues(es) > 0
    ensures k < |es| && es[k].value > 0
  {
    var front := es[..|es| - 1];
    if es[|es| - 1].value > 0 {
      k := |es| - 1;
    } else {
      k := PositiveEntry(front);
    }
  }

  /** `Math.round(slice.percent * 100)`: the share as a whole percentage. */
  function PercentLabel(value: int, total: int): (percent: int)
    requires total != 0
    ensures total > 0 ==> 2 * total * percent - total <= 200 * value < 2 * total * percent + total
    ensures total < 0 ==> 2 * -total * percent + total <= -200 * value < 2 * -total * percent - total
  {
    if total > 0 then RoundDiv(100 * value, total) else RoundDiv(-100 * value, -total)
  }

  /** A share of the total reads between 0% and 100%. */
  lemma PercentLabelBounds(value: int, total: int)
    requires total > 0 && 0 <= value <= total
    ensures 0 <= PercentLabel(value, total) <= 100
  {
    assert 0 <= 200 * value + total < 101 * (2 * total);
    DivBounds(200 * value + total, 2 * total, 101);
  }

  lemma DivBounds(x: int, d: int, k: int)
    requires d > 0 && 0 <= x < k * d
    ensures 0 <= x / d < k
  {
  }
}
