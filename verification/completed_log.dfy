/** Read-side views of the completed-task log shared by several components: the task
    names, the distinct names in order of first appearance (`new Set(names)`), and sums
    of `totalDuration`. Sums are taken from the left, as `reduce` does. */
module CompletedLog {
  import opened Seqs
  import opened GameStore

  function Names(c: seq<CompletedTask>): (r: seq<string>)
    ensures |r| == |c|
    ensures forall i :: 0 <= i < |c| ==> r[i] == c[i].name
  {
    seq(|c|, i requires 0 <= i < |c| => c[i].name)
  }

  /** Index of the first occurrence of `x` in `s`, or `|s|` when there is none. */
  function FirstIndex<T(==)>(s: seq<T>, x: T): (k: nat)
    ensures k <= |s|
    ensures k < |s| ==> s[k] == x
    ensures forall j :: 0 <= j < k ==> s[j] != x
  {
    if s == [] then 0
    else if s[0] == x then 0
    else 1 + FirstIndex(s[1..], x)
  }

  /** `Array.from(new Set(c.map(t => t.name)))`. */
  function DistinctNames(c: seq<CompletedTask>): (r: seq<string>)
    ensures forall n :: n in r <==> n in Names(c)
    ensures |r| <= |c|
  {
    if c == [] then []
    else
      var d := DistinctNames(c[..|c| - 1]);
      var n := c[|c| - 1].name;
      assert Names(c) == Names(c[..|c| - 1]) + [n];
      if n in d then d else d + [n]
  }

  /** Each name appears once. */
  lemma {:induction false} DistinctNamesDistinct(c: seq<CompletedTask>)
    ensures Distinct(DistinctNames(c))
  {
    if c != [] {
      var d := DistinctNames(c[..|c| - 1]);
      var n := c[|c| - 1].name;
      DistinctNamesDistinct(c[..|c| - 1]);
      if n !in d {
        assert multiset(d + [n]) == multiset(d) + multiset{n};
        assert multiset(d)[n] == 0;
        forall x ensures multiset(d + [n])[x] <= 1 {
          assert multiset(d + [n])[x] == multiset(d)[x] + multiset{n}[x];
        }
      }
    }
  }

  lemma FirstIndexAppend<T>(s: seq<T>, y: T, x: T)
    requires x in s
    ensures FirstIndex(s + [y], x) == FirstIndex(s, x)
  {
    var k := FirstIndex(s, x);
    var k' := FirstIndex(s + [y], x);
    assert (s + [y])[k] == x;
    if k' < k {
      assert s[k'] == x;
    }
  }

  /** Names are listed in the order in which they first occur in the log. */
  lemma {:induction false} DistinctNamesOrder(c: seq<CompletedTask>, i: nat, j: nat)
    requires i < j < |DistinctNames(c)|
    ensures FirstIndex(Names(c), DistinctNames(c)[i]) < FirstIndex(Names(c), DistinctNames(c)[j])
  {
    var prefix := c[..|c| - 1];
    var d := DistinctNames(prefix);
    var n := c[|c| - 1].name;
    var r := DistinctNames(c);
    assert Names(c) == Names(prefix) + [n];
    assert r[i] in d && r[i] in Names(prefix);
    FirstIndexAppend(Names(prefix), n, r[i]);
    if j < |d| {
      DistinctNamesOrder(prefix, i, j);
      FirstIndexAppend(Names(prefix), n, r[j]);
    } else {
      assert r[j] == n && n !in Names(prefix);
      assert FirstIndex(Names(c), n) == |prefix|;
    }
  }

  /** `c.reduce((acc, t) => acc + t.totalDuration, 0)`. */
  function TotalDuration(c: seq<CompletedTask>): (total: int)
    ensures NoNegativeDurations(c) ==> total >= 0
  {
    if c == [] then 0 else TotalDuration(c[..|c| - 1]) + c[|c| - 1].totalDuration
  }

  /** Sum of `totalDuration` over the tasks called `name`. */
  function DurationFor(c: seq<CompletedTask>, name: string): (sum: int)
    ensures NoNegativeDurations(c) ==> sum >= 0
  {
    if c == [] then 0
    else DurationFor(c[..|c| - 1], name) + (if c[|c| - 1].name == name then c[|c| - 1].totalDuration else 0)
  }

  /** A name that is not in the log has nothing summed for it. */
  lemma {:induction false} DurationForAbsent(c: seq<CompletedTask>, name: string)
    requires name !in Names(c)
    ensures DurationFor(c, name) == 0
  {
    if c != [] {
      assert Names(c) == Names(c[..|c| - 1]) + [c[|c| - 1].name];
      DurationForAbsent(c[..|c| - 1], name);
    }
  }

  predicate NoNegativeDurations(c: seq<CompletedTask>) {
    forall i :: 0 <= i < |c| ==> c[i].totalDuration >= 0
  }

  lemma {:induction false} DurationForBounds(c: seq<CompletedTask>, name: string)
    requires NoNegativeDurations(c)
    ensures 0 <= DurationFor(c, name) <= TotalDuration(c)
    ensures name !in Names(c) ==> DurationFor(c, name) == 0
  {
    if c != [] {
      DurationForBounds(c[..|c| - 1], name);
      assert Names(c) == Names(c[..|c| - 1]) + [c[|c| - 1].name];
    }
  }
}
