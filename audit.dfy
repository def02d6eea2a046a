/**
 A previously saved audit, as the statistics pass reads it: the repository
 snapshots, the order they were fetched in, and each repository's rule results.
 */
module Audits {

  /** The fields of a repository snapshot that the statistics read.
      `hours` stands for `int(time.Since(Updated).Hours())` taken at the moment
      the pass runs: whole hours since the last update. */
  datatype Repo = Repo(
    description: string,
    language: string,
    topics: seq<string>,
    license: string,
    private: bool,
    archived: bool,
    disabled: bool,
    stargazers: int,
    forks: int,
    watchers: int,
    hours: int)

  /** One rule's outcome for one repository; `status` is "success" when the
      rule passed. */
  datatype RuleResult = RuleResult(name: string, status: string)

  datatype Audit = Audit(
    repos: map<string, Repo>,
    index: seq<string>,
    results: map<string, seq<RuleResult>>)

  /** Every identity the index lists has a snapshot. */
  predicate Resolves(a: Audit) {
    forall k :: k in a.index ==> k in a.repos
  }

  /** The audit's invariant: the index lists every snapshot exactly once. */
  predicate WellFormed(a: Audit) {
    && (forall i, j :: 0 <= i < j < |a.index| ==> a.index[i] != a.index[j])
    && (forall k :: k in a.index ==> k in a.repos)
    && (forall k :: k in a.repos ==> k in a.index)
  }

  /** The rule results stored for `k`; an identity with no entry reads as an
      empty list, Go's zero value. */
  function ResultsOf(a: Audit, k: string): (rs: seq<RuleResult>)
    ensures k in a.results ==> rs == a.results[k]
    ensures k !in a.results ==> rs == []
  {
    if k in a.results then a.results[k] else []
  }

  /** The snapshots in index order, repeated where the index repeats. */
  function Visited(a: Audit): (rs: seq<Repo>)
    requires Resolves(a)
    ensures |rs| == |a.index|
    ensures forall i :: 0 <= i < |a.index| ==> rs[i] == a.repos[a.index[i]]
  {
    seq(|a.index|, i requires 0 <= i < |a.index| => a.repos[a.index[i]])
  }

  /** The rule results in index order. */
  function Outcomes(a: Audit): (rrs: seq<seq<RuleResult>>)
    ensures |rrs| == |a.index|
    ensures forall i :: 0 <= i < |a.index| ==> rrs[i] == ResultsOf(a, a.index[i])
  {
    seq(|a.index|, i requires 0 <= i < |a.index| => ResultsOf(a, a.index[i]))
  }

  /** In a well-formed audit the index is as long as the snapshot map is
      large, so a count over the index is a count over the snapshots. */
  lemma {:induction false} IndexCoversRepos(a: Audit)
    requires WellFormed(a)
    ensures |a.index| == |a.repos|
  {
    DistinctCardinality(a.index);
    assert (set k | k in a.index) == a.repos.Keys;
  }

  lemma {:induction false} DistinctCardinality(s: seq<string>)
    requires forall i, j :: 0 <= i < j < |s| ==> s[i] != s[j]
    ensures |set k | k in s| == |s|
  {
    if s != [] {
      var last := s[|s| - 1];
      var init := s[..|s| - 1];
      DistinctCardinality(init);
      assert (set k | k in s) == (set k | k in init) + {last};
      assert last !in init;
    }
  }
}
