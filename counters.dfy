/**
 The sixteen counters the statistics pass of commands/stats.go creates, the
 map keys they are stored under, and what one repository snapshot adds to
 each of them.
 */
module Counters {
  import opened Strings
  import opened Audits

  datatype Option<T> = None | Some(value: T)

  /** The counters the pass creates before it visits any repository. */
  datatype Counter =
    | Total
    | BlankDescription | BlankLanguage | BlankTopics
    | Private | Archived | Disabled
    | BlankLicense
    | TotalStars | TotalForks | TotalWatchers
    | Updated0To30 | Updated31To60 | Updated61To90 | Updated91To365 | UpdatedOver365
  {
    /** A recency bucket. */
    predicate IsBucket() {
      Updated0To30? || Updated31To60? || Updated61To90? || Updated91To365? || UpdatedOver365?
    }

    /** A counter that adds one for each visited repository it counts. */
    predicate IsCount() {
      !Total? && !TotalStars? && !TotalForks? && !TotalWatchers?
    }
  }

  /** The map key under which a counter is stored and printed. */
  function Key(c: Counter): string {
    match c
    case Total => "TOTAL"
    case BlankDescription => "blank_description"
    case BlankLanguage => "blank_language"
    case BlankTopics => "blank_topics"
    case Private => "private"
    case Archived => "archived"
    case Disabled => "disabled"
    case BlankLicense => "blank_license"
    case TotalStars => "total_stars"
    case TotalForks => "total_forks"
    case TotalWatchers => "total_watchers"
    case Updated0To30 => "updated_0-30_days"
    case Updated31To60 => "updated_31-60_days"
    case Updated61To90 => "updated_61-90_days"
    case Updated91To365 => "updated_91-365_days"
    case UpdatedOver365 => "updated_>_365_days"
  }

  /** The counters in the order the pass updates them; TOTAL, set once at
      the start, comes last and is never updated. */
  function Nth(k: nat): Counter
    requires k < 16
  {
    if k == 0 then BlankDescription
    else if k == 1 then BlankLanguage
    else if k == 2 then BlankTopics
    else if k == 3 then Private
    else if k == 4 then Archived
    else if k == 5 then Disabled
    else if k == 6 then BlankLicense
    else if k == 7 then TotalStars
    else if k == 8 then TotalForks
    else if k == 9 then TotalWatchers
    else if k == 10 then Updated0To30
    else if k == 11 then Updated31To60
    else if k == 12 then Updated61To90
    else if k == 13 then Updated91To365
    else if k == 14 then UpdatedOver365
    else Total
  }

  /** A counter's position in the order of update. */
  function Rank(c: Counter): nat {
    match c
    case BlankDescription => 0
    case BlankLanguage => 1
    case BlankTopics => 2
    case Private => 3
    case Archived => 4
    case Disabled => 5
    case BlankLicense => 6
    case TotalStars => 7
    case TotalForks => 8
    case TotalWatchers => 9
    case Updated0To30 => 10
    case Updated31To60 => 11
    case Updated61To90 => 12
    case Updated91To365 => 13
    case UpdatedOver365 => 14
    case Total => 15
  }

  /** Nth lists the counters by rank. */
  lemma NthRank(k: nat)
    requires k < 16
    ensures Rank(Nth(k)) == k
  {
  }

  /** Rank lists the counters by position. */
  lemma RankNth(c: Counter)
    ensures Rank(c) < 16 && Nth(Rank(c)) == c
  {
  }

  /** No two counters share a rank. */
  lemma RankInjective(c: Counter, d: Counter)
    requires Rank(c) == Rank(d)
    ensures c == d
  {
    RankNth(c);
    RankNth(d);
  }

  /** The first counter from position `k` on whose key is `key`. */
  function Find(key: string, k: nat): (r: Option<Counter>)
    requires k <= 16
    ensures r.Some? ==> Key(r.value) == key && k <= Rank(r.value)
    ensures r.None? ==> forall j :: k <= j < 16 ==> Key(Nth(j)) != key
    decreases 16 - k
  {
    if k == 16 then None
    else if Key(Nth(k)) == key then (NthRank(k); Some(Nth(k)))
    else Find(key, k + 1)
  }

  /** The fixed counter stored under `key`, if there is one: the inverse of
      Key. */
  function CounterOf(key: string): (r: Option<Counter>) {
    Find(key, 0)
  }

  /** Every fixed counter is found under its key. */
  lemma KeyRoundTrip(c: Counter)
    ensures CounterOf(Key(c)) == Some(c)
  {
    RankNth(c);
    KeysDistinct(c);
    FindFrom(c, 0);
  }

  /** No key is shared by two counters. */
  lemma KeysDistinct(c: Counter)
    ensures forall d :: Key(d) == Key(c) ==> d == c
  {
  }

  lemma {:induction false} FindFrom(c: Counter, k: nat)
    requires k <= Rank(c) < 16 && Nth(Rank(c)) == c
    requires forall d :: Key(d) == Key(c) ==> d == c
    ensures Find(Key(c), k) == Some(c)
    decreases 16 - k
  {
    if Key(Nth(k)) != Key(c) {
      FindFrom(c, k + 1);
    } else {
      NthRank(k);
    }
  }

  /** A key that names no counter is not the key of any counter. */
  lemma CounterOfNone(key: string)
    ensures CounterOf(key).None? <==> forall c :: Key(c) != key
    ensures CounterOf(key).Some? ==> Key(CounterOf(key).value) == key
  {
    if CounterOf(key).None? {
      forall c ensures Key(c) != key {
        RankNth(c);
      }
    }
  }

  // ---------------------------------------------------------------------------
  // Recency buckets

  /** The bucket conditions as the pass tests them, one `if` each, on whole
      hours since the last update. */
  predicate InBucket(b: Counter, h: int)
    requires b.IsBucket()
  {
    match b
    case Updated0To30 => h <= 30 * 24
    case Updated31To60 => h <= 60 * 24 && h > 30 * 24
    case Updated61To90 => h <= 90 * 24 && h > 60 * 24
    case Updated91To365 => h <= 365 * 24 && h > 90 * 24
    case UpdatedOver365 => h > 365 * 24
  }

  /** The bucket a repository belongs to, stated in days: a started day counts
      as a whole one, and each bucket keeps its upper boundary. */
  function BucketOf(h: int): (b: Counter)
    ensures b.IsBucket()
  {
    var days := (h + 23) / 24;
    if days <= 30 then Updated0To30
    else if days <= 60 then Updated31To60
    else if days <= 90 then Updated61To90
    else if days <= 365 then Updated91To365
    else UpdatedOver365
  }

  /** The five conditions partition the integers: a repository satisfies
      exactly the condition of its bucket, so each visit increments exactly
      one bucket. */
  lemma BucketPartition(b: Counter, h: int)
    requires b.IsBucket()
    ensures InBucket(b, h) <==> b == BucketOf(h)
  {
  }

  lemma BucketBoundaries()
    ensures BucketOf(720) == Updated0To30 && BucketOf(721) == Updated31To60
    ensures BucketOf(1440) == Updated31To60 && BucketOf(1441) == Updated61To90
    ensures BucketOf(2160) == Updated61To90 && BucketOf(2161) == Updated91To365
    ensures BucketOf(8760) == Updated91To365 && BucketOf(8761) == UpdatedOver365
  {
  }

  // ---------------------------------------------------------------------------
  // What each repository contributes

  /** Whether a count counter counts repository `r`. */
  predicate Counts(c: Counter, r: Repo)
    requires c.IsCount()
  {
    match c
    case BlankDescription => AllSpace(r.description)
    case BlankLanguage => AllSpace(r.language)
    case BlankTopics => |r.topics| == 0
    case Private => r.private
    case Archived => r.archived
    case Disabled => r.disabled
    case BlankLicense => AllSpace(r.license)
    case Updated0To30 | Updated31To60 | Updated61To90 | Updated91To365 | UpdatedOver365 =>
      InBucket(c, r.hours)
    case _ => false
  }

  /** The pass tests a field for blankness by trimming it and comparing the
      rest with "": that is the same as the field being white space only. */
  lemma BlankIsTrimmedEmpty(r: Repo)
    ensures Counts(BlankDescription, r) <==> TrimSpace(r.description) == ""
    ensures Counts(BlankLanguage, r) <==> TrimSpace(r.language) == ""
    ensures Counts(BlankLicense, r) <==> TrimSpace(r.license) == ""
  {
    TrimSpaceSpec(r.description);
    TrimSpaceSpec(r.language);
    TrimSpaceSpec(r.license);
  }

  /** What one visited repository adds to a fixed counter. */
  function Delta(c: Counter, r: Repo): int {
    if c.IsCount() then (if Counts(c, r) then 1 else 0)
    else if c == TotalStars then r.stargazers
    else if c == TotalForks then r.forks
    else if c == TotalWatchers then r.watchers
    else 0
  }

  /** What one visited repository adds to the value under `key`. */
  function Contribution(key: string, r: Repo): int {
    match CounterOf(key)
    case Some(c) => Delta(c, r)
    case None => 0
  }

  /** A fixed counter's total over the repositories visited so far. */
  function Tally(rs: seq<Repo>, c: Counter): int {
    if rs == [] then 0 else Tally(rs[..|rs| - 1], c) + Delta(c, rs[|rs| - 1])
  }

  /** A counter's tally over a run of repositories is the tally over its
      parts, so the order of the index does not matter to it. */
  lemma {:induction false} TallySplit(xs: seq<Repo>, ys: seq<Repo>, c: Counter)
    ensures Tally(xs + ys, c) == Tally(xs, c) + Tally(ys, c)
  {
    if ys == [] {
      assert xs + ys == xs;
    } else {
      var init := ys[..|ys| - 1];
      assert (xs + ys)[..|xs + ys| - 1] == xs + init;
      TallySplit(xs, init, c);
    }
  }

  /** A count counter equals the number of visited positions whose repository
      it counts (a repository listed twice is counted twice). */
  lemma {:induction false} TallyCounts(rs: seq<Repo>, c: Counter)
    requires c.IsCount()
    ensures Tally(rs, c) == |CountedAt(rs, c)|
  {
    if rs != [] {
      TallyCounts(rs[..|rs| - 1], c);
      CountedAtLast(rs, c);
    }
  }

  /** The positions of `rs` whose repository `c` counts. */
  function CountedAt(rs: seq<Repo>, c: Counter): set<int>
    requires c.IsCount()
  {
    set i | 0 <= i < |rs| && Counts(c, rs[i])
  }

  lemma CountedAtLast(rs: seq<Repo>, c: Counter)
    requires c.IsCount() && rs != []
    ensures var n := |rs| - 1;
      CountedAt(rs, c) == CountedAt(rs[..n], c) + (if Counts(c, rs[n]) then {n} else {})
  {
  }

  /** A count counter never exceeds the number of repositories visited. */
  lemma {:induction false} TallyBounds(rs: seq<Repo>, c: Counter)
    requires c.IsCount()
    ensures 0 <= Tally(rs, c) <= |rs|
  {
    if rs != [] {
      TallyBounds(rs[..|rs| - 1], c);
    }
  }

  /** A counter whose every addition is nonnegative tallies a nonnegative
      total. */
  lemma {:induction false} TallyNonnegative(rs: seq<Repo>, c: Counter)
    requires forall i :: 0 <= i < |rs| ==> Delta(c, rs[i]) >= 0
    ensures Tally(rs, c) >= 0
  {
    if rs != [] {
      TallyNonnegative(rs[..|rs| - 1], c);
    }
  }

  /** The five buckets together count every visited repository once. */
  lemma {:induction false} BucketsCoverVisited(rs: seq<Repo>)
    ensures Tally(rs, Updated0To30) + Tally(rs, Updated31To60) + Tally(rs, Updated61To90)
          + Tally(rs, Updated91To365) + Tally(rs, UpdatedOver365) == |rs|
  {
    if rs != [] {
      var h := rs[|rs| - 1].hours;
      BucketsCoverVisited(rs[..|rs| - 1]);
      BucketPartition(Updated0To30, h);
      BucketPartition(Updated31To60, h);
      BucketPartition(Updated61To90, h);
      BucketPartition(Updated91To365, h);
      BucketPartition(UpdatedOver365, h);
    }
  }
}
