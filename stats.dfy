/**
 The statistics pass of commands/stats.go: one walk over a saved audit's index
 that fills a map of named integer counters.
 */
module Stats {
  import opened Strings
  import opened Audits
  import opened Counters

  // ---------------------------------------------------------------------------
  // Rule successes

  /** How many of `rr` are a success of the rule called `name`. */
  function SuccessIn(rr: seq<RuleResult>, name: string): nat {
    if rr == [] then 0
    else
      var last := rr[|rr| - 1];
      SuccessIn(rr[..|rr| - 1], name) + (if last.name == name && last.status == "success" then 1 else 0)
  }

  /** Only results with status exactly "success" are counted, each once under
      its own rule name. */
  lemma {:induction false} SuccessInCounts(rr: seq<RuleResult>, name: string)
    ensures SuccessIn(rr, name) == |set j | 0 <= j < |rr| && rr[j] == RuleResult(name, "success")|
  {
    if rr != [] {
      var n := |rr| - 1;
      var init := rr[..n];
      SuccessInCounts(init, name);
      var before := set j | 0 <= j < n && init[j] == RuleResult(name, "success");
      var after := set j | 0 <= j < |rr| && rr[j] == RuleResult(name, "success");
      if rr[n] == RuleResult(name, "success") {
        assert after == before + {n};
      } else {
        assert after == before;
      }
    }
  }

  /** Successes of the rule `name` across a run of repositories' results. */
  function Successes(rrs: seq<seq<RuleResult>>, name: string): nat {
    if rrs == [] then 0 else Successes(rrs[..|rrs| - 1], name) + SuccessIn(rrs[|rrs| - 1], name)
  }

  // ---------------------------------------------------------------------------
  // The counter map

  /** Go's read of a map: a missing key reads as 0. */
  function Get(m: map<string, int>, key: string): int {
    if key in m then m[key] else 0
  }

  /** The value under `key` once the first `n` index entries are visited:
      its fixed counter's value (TOTAL is the number of snapshots), plus one
      for each success of a rule of that name. A rule named like a fixed
      counter therefore adds to that counter. */
  ghost function Expected(a: Audit, n: nat, key: string): int
    requires Resolves(a) && n <= |a.index|
  {
    var fixed := match CounterOf(key)
      case Some(c) => if c == Total then |a.repos| else Tally(Visited(a)[..n], c)
      case None => 0;
    fixed + Successes(Outcomes(a)[..n], key)
  }

  /** The keys present once the first `n` entries are visited: the fixed
      counters, and the names of rules that succeeded at least once. */
  ghost predicate Present(a: Audit, n: nat, key: string)
    requires n <= |a.index|
  {
    CounterOf(key).Some? || Successes(Outcomes(a)[..n], key) > 0
  }

  /** `stats` is what the pass holds after visiting the first `n` entries. */
  ghost predicate Describes(a: Audit, n: nat, stats: map<string, int>)
    requires Resolves(a) && n <= |a.index|
  {
    && (forall key :: key in stats <==> Present(a, n, key))
    && (forall key :: Get(stats, key) == Expected(a, n, key))
  }

  /** Lines 43-59: the counters before the first repository is visited.
      TOTAL is set to the number of snapshots, then each other fixed
      counter, in the order the lines list them, to 0. */
  function Initial(a: Audit): map<string, int> {
    Zeroed(map[Key(Total) := |a.repos|], 15)
  }

  /** `m` with the first `k` counters of the update order set to 0. */
  function Zeroed(m: map<string, int>, k: nat): map<string, int>
    requires k <= 16
  {
    if k == 0 then m else Zeroed(m, k - 1)[Key(Nth(k - 1)) := 0]
  }

  /** Zeroing the first `k` counters adds their keys, with value 0, and
      leaves every other counter as it was. */
  lemma {:induction false} ZeroedCounter(m: map<string, int>, k: nat, c: Counter)
    requires k <= 16
    ensures Key(c) in Zeroed(m, k) <==> Key(c) in m || Rank(c) < k
    ensures Key(c) in Zeroed(m, k) ==> Zeroed(m, k)[Key(c)] == if Rank(c) < k then 0 else m[Key(c)]
  {
    if k > 0 {
      ZeroedCounter(m, k - 1, c);
      NthRank(k - 1);
      KeysDistinct(c);
    }
  }

  /** Zeroing adds no key but those of fixed counters. */
  lemma {:induction false} ZeroedKeys(m: map<string, int>, k: nat, key: string)
    requires k <= 16 && key in Zeroed(m, k)
    ensures key in m || CounterOf(key).Some?
  {
    if k > 0 {
      if key == Key(Nth(k - 1)) {
        KeyRoundTrip(Nth(k - 1));
      } else {
        ZeroedKeys(m, k - 1, key);
      }
    }
  }

  /** The initial map holds each fixed counter: TOTAL as the number of
      snapshots, every other counter as 0. */
  lemma InitialFixed(a: Audit, c: Counter)
    ensures Key(c) in Initial(a)
    ensures Initial(a)[Key(c)] == if c == Total then |a.repos| else 0
  {
    ZeroedCounter(map[Key(Total) := |a.repos|], 15, c);
    RankNth(c);
  }

  /** The initial map holds nothing but the fixed counters. */
  lemma InitialOnlyFixed(a: Audit, key: string)
    requires key in Initial(a)
    ensures CounterOf(key).Some?
  {
    ZeroedKeys(map[Key(Total) := |a.repos|], 15, key);
    KeyRoundTrip(Total);
  }

  /** Before any repository is visited the map is what the pass promises
      for no visit at all. */
  lemma InitialDescribes(a: Audit)
    requires Resolves(a)
    ensures Describes(a, 0, Initial(a))
  {
    var stats := Initial(a);
    forall key ensures key in stats <==> Present(a, 0, key) {
      if key in stats {
        InitialOnlyFixed(a, key);
      } else if CounterOf(key).Some? {
        CounterOfNone(key);
        InitialFixed(a, CounterOf(key).value);
      }
    }
    forall key ensures Get(stats, key) == Expected(a, 0, key) {
      CounterOfNone(key);
      if CounterOf(key).Some? {
        InitialFixed(a, CounterOf(key).value);
      } else if key in stats {
        InitialOnlyFixed(a, key);
      }
    }
  }

  /** Once all fifteen updates are made, a repository has added under each
      key exactly its contribution; TOTAL, the sixteenth, gets none. */
  lemma PartialComplete(key: string, repo: Repo)
    ensures Partial(key, repo, 15) == Contribution(key, repo)
  {
    if CounterOf(key).Some? {
      RankNth(CounterOf(key).value);
    }
  }

  /** What `repo` has added under `key` once the first `k` counters
      are updated. */
  function Partial(key: string, repo: Repo, k: nat): int {
    match CounterOf(key)
    case Some(c) => if Rank(c) < k then Delta(c, repo) else 0
    case None => 0
  }

  /** Updating the counter of rank `Rank(c)` adds its contribution under its
      own key, and under no other. */
  lemma StepPartial(c: Counter, key: string, repo: Repo)
    ensures Partial(key, repo, Rank(c) + 1) == Partial(key, repo, Rank(c)) + (if key == Key(c) then Delta(c, repo) else 0)
  {
    KeyRoundTrip(c);
    if CounterOf(key).Some? {
      var d := CounterOf(key).value;
      if Rank(d) == Rank(c) {
        RankInjective(c, d);
      }
    }
  }

  /** One counter's update for `repo`: a count counter is incremented when it
      counts the repository, a sum counter has its amount added; as in Go, a
      missing key reads as 0. */
  ghost function Step(m: map<string, int>, c: Counter, repo: Repo): map<string, int> {
    if c.IsCount() && !Counts(c, repo) then m else m[Key(c) := Get(m, Key(c)) + Delta(c, repo)]
  }

  /** The map once the first `k` counters are updated for `repo`. */
  ghost function Applied(before: map<string, int>, repo: Repo, k: nat): map<string, int>
    requires k <= 16
  {
    if k == 0 then before else Step(Applied(before, repo, k - 1), Nth(k - 1), repo)
  }

  /** The updates add no key and remove none. */
  lemma {:induction false} AppliedKeys(before: map<string, int>, repo: Repo, k: nat)
    requires k <= 16 && forall c :: Key(c) in before
    ensures Applied(before, repo, k).Keys == before.Keys
  {
    if k > 0 {
      AppliedKeys(before, repo, k - 1);
    }
  }

  /** After the first `k` updates every key holds its old value plus what the
      repository has added under it so far. */
  lemma {:induction false} AppliedSpec(before: map<string, int>, repo: Repo, k: nat)
    requires k <= 16
    ensures forall key :: Get(Applied(before, repo, k), key) == Get(before, key) + Partial(key, repo, k)
  {
    if k > 0 {
      AppliedSpec(before, repo, k - 1);
      var c := Nth(k - 1);
      NthRank(k - 1);
      forall key ensures Get(Applied(before, repo, k), key) == Get(before, key) + Partial(key, repo, k) {
        assert Get(Applied(before, repo, k - 1), key) == Get(before, key) + Partial(key, repo, k - 1);
        StepPartial(c, key, repo);
      }
    }
  }

  /** `trace` lists the sixteen maps a repository's update passes through,
      counter by counter in update order. */
  ghost predicate IsTrace(trace: seq<map<string, int>>, repo: Repo) {
    && |trace| == 16
    && forall k {:trigger Nth(k)} :: 0 <= k < 15 ==> trace[k + 1] == Step(trace[k], Nth(k), repo)
  }

  /** A trace exists from every starting map. */
  lemma TraceFrom(before: map<string, int>, repo: Repo) returns (trace: seq<map<string, int>>)
    ensures IsTrace(trace, repo) && trace[0] == before
  {
    trace := seq(16, k requires 0 <= k < 16 => Applied(before, repo, k));
  }

  /** Every trace passes through the maps of Applied, so it ends in the fully
      updated map. */
  lemma {:induction false} TraceApplied(before: map<string, int>, repo: Repo, trace: seq<map<string, int>>, k: nat)
    requires IsTrace(trace, repo) && trace[0] == before && k < 16
    ensures trace[k] == Applied(before, repo, k)
  {
    if k > 0 {
      TraceApplied(before, repo, trace, k - 1);
      NthRank(k - 1);
    }
  }

  /** `stats[Key(c)]++` when `cond` holds (lines 65-91 and 101-119). */
  method CountIf(stats: map<string, int>, c: Counter, cond: bool,
                 ghost trace: seq<map<string, int>>, ghost repo: Repo, ghost k: nat)
    returns (next: map<string, int>)
    requires IsTrace(trace, repo) && k < 15 && Rank(c) == k && stats == trace[k]
    requires c.IsCount() && cond == Counts(c, repo)
    ensures next == trace[k + 1]
  {
    RankNth(c);
    next := stats;
    if cond {
      next := next[Key(c) := Get(next, Key(c)) + 1];
    }
  }

  /** `stats[Key(c)] += amount` (lines 93-97). */
  method AddTo(stats: map<string, int>, c: Counter, amount: int,
               ghost trace: seq<map<string, int>>, ghost repo: Repo, ghost k: nat)
    returns (next: map<string, int>)
    requires IsTrace(trace, repo) && k < 15 && Rank(c) == k && stats == trace[k]
    requires !c.IsCount() && amount == Delta(c, repo)
    ensures next == trace[k + 1]
  {
    RankNth(c);
    next := stats[Key(c) := Get(stats, Key(c)) + amount];
  }

  /** Lines 65-75: the blank description, language and topics counters. */
  method TallyBlanks(stats: map<string, int>, repo: Repo, ghost trace: seq<map<string, int>>)
    returns (next: map<string, int>)
    requires IsTrace(trace, repo) && stats == trace[0]
    ensures next == trace[3]
  {
    BlankIsTrimmedEmpty(repo);
    next := CountIf(stats, BlankDescription, TrimSpace(repo.description) == "", trace, repo, 0);
    next := CountIf(next, BlankLanguage, TrimSpace(repo.language) == "", trace, repo, 1);
    next := CountIf(next, BlankTopics, |repo.topics| == 0, trace, repo, 2);
  }

  /** Lines 77-91: the private, archived, disabled and blank licence counters. */
  method TallyFlags(stats: map<string, int>, repo: Repo, ghost trace: seq<map<string, int>>)
    returns (next: map<string, int>)
    requires IsTrace(trace, repo) && stats == trace[3]
    ensures next == trace[7]
  {
    BlankIsTrimmedEmpty(repo);
    next := CountIf(stats, Private, repo.private, trace, repo, 3);
    next := CountIf(next, Archived, repo.archived, trace, repo, 4);
    next := CountIf(next, Disabled, repo.disabled, trace, repo, 5);
    next := CountIf(next, BlankLicense, TrimSpace(repo.license) == "", trace, repo, 6);
  }

  /** Lines 93-97: the three sums. */
  method TallySums(stats: map<string, int>, repo: Repo, ghost trace: seq<map<string, int>>)
    returns (next: map<string, int>)
    requires IsTrace(trace, repo) && stats == trace[7]
    ensures next == trace[10]
  {
    next := AddTo(stats, TotalStars, repo.stargazers, trace, repo, 7);
    next := AddTo(next, TotalForks, repo.forks, trace, repo, 8);
    next := AddTo(next, TotalWatchers, repo.watchers, trace, repo, 9);
  }

  /** Lines 99-119: the recency buckets, on whole hours since the update. */
  method TallyAge(stats: map<string, int>, repo: Repo, ghost trace: seq<map<string, int>>)
    returns (next: map<string, int>)
    requires IsTrace(trace, repo) && stats == trace[10]
    ensures next == trace[15]
  {
    var hrs := repo.hours;
    next := CountIf(stats, Updated0To30, hrs <= 30 * 24, trace, repo, 10);
    next := CountIf(next, Updated31To60, hrs <= 60 * 24 && hrs > 30 * 24, trace, repo, 11);
    next := CountIf(next, Updated61To90, hrs <= 90 * 24 && hrs > 60 * 24, trace, repo, 12);
    next := CountIf(next, Updated91To365, hrs <= 365 * 24 && hrs > 90 * 24, trace, repo, 13);
    next := CountIf(next, UpdatedOver365, hrs > 365 * 24, trace, repo, 14);
  }

  /** Lines 65-119: the fixed counters' update for one repository, in the
      order the source performs it. */
  method TallyRepo(stats: map<string, int>, repo: Repo) returns (next: map<string, int>)
    requires forall c :: Key(c) in stats
    ensures next.Keys == stats.Keys
    ensures forall key :: Get(next, key) == Get(stats, key) + Contribution(key, repo)
  {
    ghost var trace := TraceFrom(stats, repo);
    next := TallyBlanks(stats, repo, trace);
    next := TallyFlags(next, repo, trace);
    next := TallySums(next, repo, trace);
    next := TallyAge(next, repo, trace);
    TraceApplied(stats, repo, trace, 15);
    AppliedSpec(stats, repo, 15);
    AppliedKeys(stats, repo, 15);
    forall key ensures Get(next, key) == Get(stats, key) + Contribution(key, repo) {
      PartialComplete(key, repo);
    }
  }

  /** Lines 121-125: one repository's rule results. Each result with status
      "success" adds one under its rule's name, creating the key when it is
      new; any other status changes nothing. */
  method CountSuccesses(stats: map<string, int>, rules: seq<RuleResult>) returns (next: map<string, int>)
    ensures forall key :: key in next <==> key in stats || SuccessIn(rules, key) > 0
    ensures forall key :: Get(next, key) == Get(stats, key) + SuccessIn(rules, key)
  {
    next := stats;
    for j := 0 to |rules|
      invariant forall key :: key in next <==> key in stats || SuccessIn(rules[..j], key) > 0
      invariant forall key :: Get(next, key) == Get(stats, key) + SuccessIn(rules[..j], key)
    {
      assert rules[..j + 1][..j] == rules[..j];
      var rule := rules[j];
      if rule.status == "success" {
        next := next[rule.name := Get(next, rule.name) + 1];
      }
    }
    assert rules[..|rules|] == rules;
  }

  /** A map that describes the pass does so in full: it lists every fixed
      counter. */
  lemma DescribesCounters(a: Audit, n: nat, stats: map<string, int>)
    requires Resolves(a) && n <= |a.index| && Describes(a, n, stats)
    ensures forall c :: Key(c) in stats
  {
    forall c ensures Key(c) in stats {
      KeyRoundTrip(c);
      assert Present(a, n, Key(c));
    }
  }

  /** Visiting entry `n` adds that repository's contribution to every
      fixed counter's tally. */
  lemma TallyStep(a: Audit, n: nat, c: Counter)
    requires Resolves(a) && n < |a.index|
    ensures Tally(Visited(a)[..n + 1], c) == Tally(Visited(a)[..n], c) + Delta(c, a.repos[a.index[n]])
  {
    var v := Visited(a);
    assert v[..n + 1][..n] == v[..n];
  }

  /** Visiting entry `n` adds its rule successes under every name. */
  lemma SuccessesStep(a: Audit, n: nat, key: string)
    requires n < |a.index|
    ensures Successes(Outcomes(a)[..n + 1], key) == Successes(Outcomes(a)[..n], key) + SuccessIn(ResultsOf(a, a.index[n]), key)
  {
    var o := Outcomes(a);
    assert o[..n + 1][..n] == o[..n];
  }

  /** Visiting entry `n` adds that repository's contribution and its rule
      successes to what the first `n` visits gave. */
  lemma ExpectedStep(a: Audit, n: nat, key: string)
    requires Resolves(a) && n < |a.index|
    ensures var k := a.index[n];
      && Expected(a, n + 1, key)
         == Expected(a, n, key) + Contribution(key, a.repos[k]) + SuccessIn(ResultsOf(a, k), key)
      && (Present(a, n + 1, key) <==> Present(a, n, key) || SuccessIn(ResultsOf(a, k), key) > 0)
  {
    SuccessesStep(a, n, key);
    if CounterOf(key).Some? {
      TallyStep(a, n, CounterOf(key).value);
    }
  }

  /** The loop body keeps Describes: after the fixed counters and the rule
      successes of entry `n` are added, the map describes `n + 1` visits. */
  lemma DescribesStep(a: Audit, n: nat, stats: map<string, int>, tallied: map<string, int>, next: map<string, int>)
    requires Resolves(a) && n < |a.index| && Describes(a, n, stats)
    requires tallied.Keys == stats.Keys
    requires forall key :: Get(tallied, key) == Get(stats, key) + Contribution(key, a.repos[a.index[n]])
    requires forall key :: key in next <==> key in tallied || SuccessIn(ResultsOf(a, a.index[n]), key) > 0
    requires forall key :: Get(next, key) == Get(tallied, key) + SuccessIn(ResultsOf(a, a.index[n]), key)
    ensures Describes(a, n + 1, next)
  {
    forall key
      ensures key in next <==> Present(a, n + 1, key)
      ensures Get(next, key) == Expected(a, n + 1, key)
    {
      ExpectedStep(a, n, key);
      assert key in tallied <==> key in stats;
    }
  }

  /** Lines 42-133: the statistics pass over a saved audit. The resulting map
      holds every fixed counter and every rule name that succeeded at least
      once; each value is what Expected says for the whole index. */
  method Aggregate(a: Audit) returns (stats: map<string, int>)
    requires Resolves(a)
    ensures Describes(a, |a.index|, stats)
  {
    stats := Initial(a);
    InitialDescribes(a);
    for i := 0 to |a.index|
      invariant Describes(a, i, stats)
    {
      var k := a.index[i];
      var repo := a.repos[k];
      DescribesCounters(a, i, stats);
      var tallied := TallyRepo(stats, repo);
      var next := CountSuccesses(tallied, ResultsOf(a, k));
      DescribesStep(a, i, stats, tallied, next);
      stats := next;
    }
  }
}
