/** The quick entry box: the autocomplete suggestions drawn from the history of
    completed task names (`CompletedLog.DistinctNames`, the source's `history`), and the
    two ways of starting a task from the box. */
module TaskInput {
  import opened Text
  import opened Seqs
  import opened GameStore
  import opened CompletedLog

  const SuggestionLimit: nat := 5

  /** `h.toLowerCase().includes(input.toLowerCase()) && h !== input`. */
  function IsSuggestion(h: string, input: string): (r: bool)
    ensures r <==> h != input && HasWindow(ToLower(h), ToLower(input))
    ensures r ==> |input| <= |h|
  {
    IncludesIffWindow(ToLower(h), ToLower(input));
    Includes(ToLower(h), ToLower(input)) && h != input
  }

  /** `a` is `b` with some elements left out, the rest kept in order. */
  predicate IsSubsequence(a: seq<string>, b: seq<string>)
    decreases |b|
  {
    a == [] || (b != [] && ((a[0] == b[0] && IsSubsequence(a[1..], b[1..])) || IsSubsequence(a, b[1..])))
  }

  /** `history.filter(h => IsSuggestion(h, input))`. */
  function Matching(history: seq<string>, input: string): (r: seq<string>)
    ensures forall x :: x in r <==> x in history && IsSuggestion(x, input)
    ensures IsSubsequence(r, history)
  {
    if history == [] then []
    else if IsSuggestion(history[0], input) then [history[0]] + Matching(history[1..], input)
    else Matching(history[1..], input)
  }

  lemma {:induction false} PrefixIsSubsequence(a: seq<string>, b: seq<string>, n: nat)
    requires IsSubsequence(a, b) && n <= |a|
    ensures IsSubsequence(a[..n], b)
    decreases |b|
  {
    if n > 0 {
      if a[0] == b[0] && IsSubsequence(a[1..], b[1..]) {
        PrefixIsSubsequence(a[1..], b[1..], n - 1);
        assert a[..n][1..] == a[1..][..n - 1];
      } else {
        PrefixIsSubsequence(a, b[1..], n);
      }
    }
  }

  /** `filteredSuggestions`: nothing for an empty input; otherwise the first five history
      entries that contain the input case-insensitively and differ from it exactly. */
  function Suggestions(history: seq<string>, input: string): (r: seq<string>)
    ensures input == "" ==> r == []
    ensures input != "" ==> r == Matching(history, input)[..Min(SuggestionLimit, |Matching(history, input)|)]
    ensures |r| <= SuggestionLimit
    ensures forall x :: x in r ==> x in history && IsSuggestion(x, input)
    ensures IsSubsequence(r, history)
    ensures input != "" && |r| < SuggestionLimit ==>
              forall x :: x in history && IsSuggestion(x, input) ==> x in r
  {
    if input == "" then []
    else
      var all := Matching(history, input);
      var r := Take(all, SuggestionLimit);
      PrefixIsSubsequence(all, history, |r|);
      r
  }

  /** An entry equal to the input is never offered, even though it contains the input. */
  lemma NoExactEcho(history: seq<string>, input: string)
    ensures input !in Suggestions(history, input)
  {
  }

  lemma {:induction false} SubsequenceMultiset(a: seq<string>, b: seq<string>)
    requires IsSubsequence(a, b)
    ensures multiset(a) <= multiset(b)
    decreases |b|
  {
    if a != [] {
      assert b == [b[0]] + b[1..];
      if a[0] == b[0] && IsSubsequence(a[1..], b[1..]) {
        SubsequenceMultiset(a[1..], b[1..]);
        assert a == [a[0]] + a[1..];
      } else {
        SubsequenceMultiset(a, b[1..]);
      }
    }
  }

  /** Drawn from the log's history, the suggestions are names of completed tasks, each
      offered once. */
  lemma SuggestionsFromLog(c: seq<CompletedTask>, input: string)
    ensures forall x :: x in Suggestions(DistinctNames(c), input) ==> x in Names(c)
    ensures Distinct(Suggestions(DistinctNames(c), input))
  {
    var h := DistinctNames(c);
    var r := Suggestions(h, input);
    DistinctNamesDistinct(c);
    SubsequenceMultiset(r, h);
    forall x ensures multiset(r)[x] <= 1 {
      assert multiset(r)[x] <= multiset(h)[x];
    }
  }

  /** `handleSubmit`: a whitespace-only input starts nothing and stays as it is;
      otherwise the input, untrimmed, is started with empty project and category and
      the box is cleared. */
  method HandleSubmit(store: Store, input: string, id: TaskId, now: int) returns (nextInput: string)
    requires store.Valid() && IsFresh(store.State(), id)
    modifies store
    ensures store.Valid()
    ensures IsBlank(input) ==> store.State() == old(store.State()) && nextInput == input
    ensures !IsBlank(input) ==> store.State() == Start(old(store.State()), input, "", "", id, now) && nextInput == ""
  {
    TrimEmptyIffBlank(input);
    if Trim(input) == [] {
      return input;
    }
    store.StartNewTask(input, "", "", id, now);
    nextInput := "";
  }

  /** `handleSelect`: the chosen suggestion is started as it is, with empty project and
      category, and the box is cleared. */
  method HandleSelect(store: Store, value: string, id: TaskId, now: int) returns (nextInput: string)
    requires store.Valid() && IsFresh(store.State(), id)
    modifies store
    ensures store.Valid()
    ensures store.State() == Start(old(store.State()), value, "", "", id, now) && nextInput == ""
  {
    store.StartNewTask(value, "", "", id, now);
    nextInput := "";
  }
}
