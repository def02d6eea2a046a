/**
 What the map built by the statistics pass means once the whole index is
 visited: each counter is the count, sum or number of snapshots its name
 promises. A rule whose name is that of a fixed counter would add its
 successes to that counter, so the lemmas about a fixed counter assume that
 no rule succeeded under its name.
 */
module Summary {
  import opened Strings
  import opened Audits
  import opened Counters
  import opened Stats

  /** No rule succeeded under the name `key` anywhere in the audit. */
  ghost predicate NoSuccessUnder(a: Audit, key: string) {
    Successes(Outcomes(a), key) == 0
  }

  /** The final value of a fixed counter: its tally over the whole index (the
      number of snapshots for TOTAL) plus the successes of a rule of that name. */
  lemma FinalCounter(a: Audit, stats: map<string, int>, c: Counter)
    requires Resolves(a) && Describes(a, |a.index|, stats)
    ensures Key(c) in stats
    ensures stats[Key(c)]
         == (if c == Total then |a.repos| else Tally(Visited(a), c)) + Successes(Outcomes(a), Key(c))
  {
    KeyRoundTrip(c);
    assert Present(a, |a.index|, Key(c));
    assert Visited(a)[..|a.index|] == Visited(a);
    assert Outcomes(a)[..|a.index|] == Outcomes(a);
    assert Get(stats, Key(c)) == Expected(a, |a.index|, Key(c));
  }

  /** Line 44: TOTAL is the number of snapshots in the audit. */
  lemma TotalMeaning(a: Audit, stats: map<string, int>)
    requires Resolves(a) && Describes(a, |a.index|, stats) && NoSuccessUnder(a, Key(Total))
    ensures Key(Total) in stats && stats[Key(Total)] == |a.repos|
  {
    FinalCounter(a, stats, Total);
  }

  /** Lines 65-91 and 101-119: a count counter (the blank fields, private,
      archived, disabled and the recency buckets) holds the number of index
      positions whose repository it counts. */
  lemma CountMeaning(a: Audit, stats: map<string, int>, c: Counter)
    requires c.IsCount()
    requires Resolves(a) && Describes(a, |a.index|, stats) && NoSuccessUnder(a, Key(c))
    ensures Key(c) in stats
    ensures stats[Key(c)] == |set i | 0 <= i < |a.index| && Counts(c, a.repos[a.index[i]])|
  {
    FinalCounter(a, stats, c);
    TallyCounts(Visited(a), c);
    CountedInIndex(a, c);
  }

  lemma CountedInIndex(a: Audit, c: Counter)
    requires c.IsCount() && Resolves(a)
    ensures CountedAt(Visited(a), c) == set i | 0 <= i < |a.index| && Counts(c, a.repos[a.index[i]])
  {
  }

  /** The sum of `f` over `rs`, taken front to back. */
  function Sum(rs: seq<Repo>, f: Repo -> int): int {
    if rs == [] then 0 else f(rs[0]) + Sum(rs[1..], f)
  }

  /** A counter that adds `f` of each repository tallies the sum of `f`. */
  lemma {:induction false} TallyIsSum(rs: seq<Repo>, c: Counter, f: Repo -> int)
    requires forall r :: Delta(c, r) == f(r)
    ensures Tally(rs, c) == Sum(rs, f)
  {
    if rs != [] {
      TallyIsSum(rs[1..], c, f);
      TallySplit([rs[0]], rs[1..], c);
      assert [rs[0]] + rs[1..] == rs;
      assert [rs[0]][..0] == [];
    }
  }

  /** Lines 93-97: total_stars, total_forks and total_watchers each hold the
      sum over the index of the amount they add per repository (its
      stargazer, fork or watcher count). */
  lemma SumMeaning(a: Audit, stats: map<string, int>, c: Counter, f: Repo -> int)
    requires !c.IsCount() && c != Total && forall r :: Delta(c, r) == f(r)
    requires Resolves(a) && Describes(a, |a.index|, stats) && NoSuccessUnder(a, Key(c))
    ensures Key(c) in stats && stats[Key(c)] == Sum(Visited(a), f)
  {
    FinalCounter(a, stats, c);
    TallyIsSum(Visited(a), c, f);
  }

  /** Lines 99-119: when the index is as long as the snapshot map is large (as
      in a well-formed audit, by IndexCoversRepos), the five recency buckets
      add up to TOTAL: every repository lands in exactly one. */
  lemma BucketsSumToTotal(a: Audit, stats: map<string, int>)
    requires Resolves(a) && |a.index| == |a.repos|
    requires Describes(a, |a.index|, stats) && NoSuccessUnder(a, Key(Total))
    requires NoSuccessUnder(a, Key(Updated0To30)) && NoSuccessUnder(a, Key(Updated31To60))
    requires NoSuccessUnder(a, Key(Updated61To90)) && NoSuccessUnder(a, Key(Updated91To365))
    requires NoSuccessUnder(a, Key(UpdatedOver365))
    ensures Get(stats, Key(Updated0To30)) + Get(stats, Key(Updated31To60)) + Get(stats, Key(Updated61To90))
          + Get(stats, Key(Updated91To365)) + Get(stats, Key(UpdatedOver365)) == Get(stats, Key(Total))
  {
    FinalCounter(a, stats, Total);
    FinalCounter(a, stats, Updated0To30);
    FinalCounter(a, stats, Updated31To60);
    FinalCounter(a, stats, Updated61To90);
    FinalCounter(a, stats, Updated91To365);
    FinalCounter(a, stats, UpdatedOver365);
    BucketsCoverVisited(Visited(a));
  }

  /** A count counter lies between 0 and TOTAL when the index is as long as
      the snapshot map is large, so its share of TOTAL is a true percentage. */
  lemma CountBounded(a: Audit, stats: map<string, int>, c: Counter)
    requires c.IsCount()
    requires Resolves(a) && |a.index| == |a.repos| && Describes(a, |a.index|, stats)
    requires NoSuccessUnder(a, Key(c)) && NoSuccessUnder(a, Key(Total))
    ensures 0 <= Get(stats, Key(c)) <= Get(stats, Key(Total))
  {
    FinalCounter(a, stats, Total);
    FinalCounter(a, stats, c);
    TallyBounds(Visited(a), c);
  }

  /** Lines 121-125: a rule that is not named like a fixed counter appears in
      the map exactly when it succeeded somewhere, and holds its number of
      successes over the index. */
  lemma RuleSuccessMeaning(a: Audit, stats: map<string, int>, name: string)
    requires CounterOf(name).None?
    requires Resolves(a) && Describes(a, |a.index|, stats)
    ensures name in stats <==> Successes(Outcomes(a), name) > 0
    ensures Get(stats, name) == Successes(Outcomes(a), name)
  {
    assert Outcomes(a)[..|a.index|] == Outcomes(a);
    assert name in stats <==> Present(a, |a.index|, name);
    assert Get(stats, name) == Expected(a, |a.index|, name);
  }

  /** The outcome of the pass is fully determined by the audit. */
  lemma StatsDetermined(a: Audit, s: map<string, int>, t: map<string, int>)
    requires Resolves(a) && Describes(a, |a.index|, s) && Describes(a, |a.index|, t)
    ensures s == t
  {
    forall key | key in s ensures key in t && s[key] == t[key] {
      assert Get(s, key) == Expected(a, |a.index|, key) == Get(t, key);
    }
    assert s.Keys == t.Keys;
  }
}
