/**
 The report printed at the end of the statistics pass: the rule names in
 sorted order (commands/stats.go:29-33) and the guard that decides whether a
 value is followed by its share of TOTAL (commands/stats.go:164).
 */
module Report {
  import opened Strings
  import opened Rules
  import opened Audits
  import opened Counters
  import opened Stats

  /** The names of `rules`, in load order. */
  function NamesOf(rules: seq<Rule>): seq<string> {
    seq(|rules|, i requires 0 <= i < |rules| => rules[i].name)
  }

  /** Lines 29-33: the loaded rules' names are collected in load order and
      sorted with `sort.Strings`. The result holds each name as often as a
      rule carries it, in ascending order. */
  method SortedRuleNames(rules: seq<Rule>) returns (names: seq<string>)
    ensures Sorted(names)
    ensures multiset(names) == multiset(NamesOf(rules))
  {
    var list: seq<string> := [];
    for i := 0 to |rules|
      invariant |list| == i
      invariant forall j :: 0 <= j < i ==> list[j] == rules[j].name
    {
      list := list + [rules[i].name];
    }
    assert list == NamesOf(rules);
    names := SortStrings(list);
  }

  /** Line 164: whether the value of `stat` is followed by its share of
      TOTAL, a missing key reading as 0. Only a value below TOTAL gets one, so
      a nonnegative value never has TOTAL = 0 as its divisor. */
  function ShowsShare(stats: map<string, int>, stat: string): (shown: bool)
    ensures shown && Get(stats, stat) >= 0 ==> Get(stats, Key(Total)) > 0
  {
    Get(stats, stat) < Get(stats, Key(Total))
  }

  /** The stargazer, fork and watcher counts of every snapshot are
      nonnegative, as GitHub reports them. */
  predicate NonnegativeAmounts(a: Audit) {
    forall k :: k in a.repos ==> a.repos[k].stargazers >= 0 && a.repos[k].forks >= 0 && a.repos[k].watchers >= 0
  }

  /** Every value the pass leaves in the map is nonnegative, so printStat
      never divides by zero: when a share is shown, TOTAL is positive. */
  lemma ShareDivisorPositive(a: Audit, stats: map<string, int>, stat: string)
    requires Resolves(a) && NonnegativeAmounts(a) && Describes(a, |a.index|, stats)
    ensures Get(stats, stat) >= 0
    ensures ShowsShare(stats, stat) ==> Get(stats, Key(Total)) > 0
  {
    assert Get(stats, stat) == Expected(a, |a.index|, stat);
    if CounterOf(stat).Some? {
      TallyNonnegativeIn(a, CounterOf(stat).value);
    }
  }

  lemma TallyNonnegativeIn(a: Audit, c: Counter)
    requires Resolves(a) && NonnegativeAmounts(a)
    ensures Tally(Visited(a)[..|a.index|], c) >= 0
  {
    var visited := Visited(a)[..|a.index|];
    if c.IsCount() {
      TallyBounds(visited, c);
    } else {
      TallyNonnegative(visited, c);
    }
  }
}
