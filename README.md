# gaudit statistics pass, in Dafny

gaudit audits a GitHub organisation's repositories against a set of
compliance rules and saves the result. Its `stats` command reads the last
saved audit and walks the audit's index once. For each repository it fills a
map of named integer counters:

- the number of snapshots (`TOTAL`);
- how many repositories have a blank description, language, topic list or
  licence;
- how many are private, archived or disabled;
- the sums of stargazers, forks and watchers;
- five recency buckets, by hours since the last update;
- for every rule, how many times it succeeded.

The report then prints the counters and the sorted rule names. A value below
`TOTAL` is followed by its percentage of `TOTAL`.

The model has seven modules:

- `Strings` (strings.dfy): Go's `strings.TrimSpace` and the order
  `sort.Strings` sorts by, with a sort specified as "sorted permutation".
- `Rules` (rules.dfy): the rule record of analyze/rules.go.
- `Audits` (audit.dfy): the saved audit, meaning the snapshots, the index
  and the rule results.
- `Counters` (counters.dfy): the sixteen fixed counters, their map keys, the
  bucket conditions, and what one repository adds to each counter (`Delta`,
  `Tally`).
- `Stats` (stats.dfy): the pass itself.
  - `Aggregate` is the loop over the index.
  - `TallyRepo` performs the fifteen per-repository updates, in source
    order, through `CountIf` and `AddTo`.
  - `CountSuccesses` is the inner loop over rule results.
  - Each is proved against the specification `Describes`/`Expected`: the
    value every key holds after the first `n` index entries.
- `Summary` (summary.dfy) and `Report` (report.dfy): what the final map
  means, the sorted rule-name list, and the guard in front of the
  percentage.

The map is a Dafny `map<string, int>` that the methods reassign. As in Go, a
missing key reads as 0 (`Stats.Get`).

## Model

| member | source | states |
|---|---|---|
| Stats.Aggregate | commands/stats.go:42-133 | After the whole index is visited, the map holds every fixed counter and exactly the rule names that succeeded at least once. Each key holds `Expected`: TOTAL = number of snapshots; every other fixed counter = its tally over the visited repositories; plus the rule's number of successes. |
| Stats.InitialDescribes | commands/stats.go:42-59 | The initial map is exactly what the specification prescribes for zero visited entries. |
| Stats.InitialFixed | commands/stats.go:43-59 | The initial map holds every fixed counter: TOTAL as len(Repos), every other counter as 0. |
| Stats.InitialOnlyFixed | commands/stats.go:43-59 | The initial map holds no key other than the sixteen fixed counters. |
| Stats.ZeroedCounter | commands/stats.go:45-59 | Setting the counters to 0 in order adds each one's key with value 0 and leaves TOTAL's value alone. |
| Stats.TallyRepo | commands/stats.go:62-119 | One repository's fixed updates keep the key set. They change each key's value by exactly that repository's contribution, and nothing else changes. |
| Stats.CountIf | commands/stats.go:65-67 | `if cond { stats[key]++ }` moves the map one step along the update trace; `cond` is the counter's own condition. |
| Stats.AddTo | commands/stats.go:93-97 | `stats[key] += amount` moves the map one step along the update trace. |
| Stats.TallyBlanks | commands/stats.go:65-75 | The description, language and topic tests and increments, in source order. |
| Stats.TallyFlags | commands/stats.go:77-91 | The private, archived, disabled and licence tests and increments, in source order. |
| Stats.TallySums | commands/stats.go:93-97 | The three additions, in source order. |
| Stats.TallyAge | commands/stats.go:99-119 | The five recency tests, on whole hours since the last update, in source order. |
| Stats.AppliedSpec | commands/stats.go:65-119 | After the first k updates, every key holds its old value plus what the repository added under it so far. |
| Stats.TraceApplied | commands/stats.go:65-119 | Every update trace passes through the maps the specification `Applied` prescribes. |
| Stats.CountSuccesses | commands/stats.go:121-125 | For each key, the value grows by the number of results that are a success of the rule with that name. A key is created exactly when such a success exists. Results with any other status change nothing. |
| Stats.SuccessInCounts | commands/stats.go:121-125 | The increment under a name is the number of results equal to (name, "success"). Other statuses and other names count for nothing. |
| Stats.ExpectedStep | commands/stats.go:62-133 | Visiting entry n adds that repository's contribution plus its rule successes. A key becomes present exactly when it was present before or a success adds to it. |
| Stats.DescribesStep | commands/stats.go:62-133 | The loop body preserves the loop invariant `Describes`. |
| Stats.DescribesCounters | commands/stats.go:43-59 | A map that meets the specification contains every fixed counter, so the `++` updates read existing keys. |
| Counters.KeyRoundTrip | commands/stats.go:44-59 | Each counter's key maps back to that counter. The sixteen keys are distinct. |
| Counters.CounterOfNone | commands/stats.go:44-59 | A string is no counter's key exactly when the lookup finds nothing. |
| Counters.BlankIsTrimmedEmpty | commands/stats.go:65-91 | A blank counter counts a field exactly when `strings.TrimSpace(field) == ""`, that is, when the field is white space only. |
| Strings.TrimSpaceSpec | commands/stats.go:65 | `TrimSpace` returns "" exactly when every character is white space. Otherwise its result starts and ends with a non-space. |
| Counters.BucketPartition | commands/stats.go:101-119 | The five bucket conditions are exclusive and exhaustive. A repository satisfies exactly the condition of the day-based bucket `BucketOf`, where a started day counts as a whole one. |
| Counters.BucketBoundaries | commands/stats.go:101-119 | 720/721, 1440/1441, 2160/2161 and 8760/8761 hours fall on the two sides of each bucket boundary. |
| Counters.BucketsCoverVisited | commands/stats.go:101-119 | Over any run of repositories, the five bucket tallies add up to the run's length. |
| Counters.TallySplit | commands/stats.go:62-119 | A counter's tally over a concatenation is the sum of the tallies over the parts. |
| Counters.TallyCounts | commands/stats.go:65-91 | A count counter's tally is the number of positions whose repository it counts. |
| Counters.TallyBounds | commands/stats.go:65-91 | A count counter's tally lies between 0 and the number of repositories visited. |
| Counters.TallyNonnegative | commands/stats.go:93-97 | A sum whose addends are all nonnegative is nonnegative. |
| Summary.FinalCounter | commands/stats.go:42-133 | In the final map, a fixed counter holds its tally over the whole index (len(Repos) for TOTAL), plus the successes of a rule of the same name. |
| Summary.TotalMeaning | commands/stats.go:44 | TOTAL is the number of snapshots. |
| Summary.CountMeaning | commands/stats.go:65-91 | blank_*, private, archived, disabled and each bucket equal the number of index positions whose repository meets the counter's condition. |
| Summary.TallyIsSum | commands/stats.go:93-97 | A counter that adds f(repo) per repository tallies the sum of f. |
| Summary.SumMeaning | commands/stats.go:93-97 | total_stars, total_forks and total_watchers are the sums of the stargazer, fork and watcher counts over the index. |
| Audits.IndexCoversRepos | commands/stats.go:44 | When the index lists each snapshot exactly once, it is as long as the snapshot map is large, so len(Repos) = len(Index). |
| Summary.BucketsSumToTotal | commands/stats.go:99-119 | When the index is as long as the snapshot map is large (a well-formed audit, by IndexCoversRepos), the five buckets add up to TOTAL. |
| Summary.CountBounded | commands/stats.go:65-119 | When the index is as long as the snapshot map is large, every count counter lies between 0 and TOTAL. |
| Summary.RuleSuccessMeaning | commands/stats.go:121-125 | A rule not named like a fixed counter is a key exactly when it succeeded somewhere. Its value is its total number of successes. |
| Summary.StatsDetermined | commands/stats.go:42-133 | Two maps that both meet the specification are equal, so the pass's outcome is fully determined by the audit. |
| Report.SortedRuleNames | commands/stats.go:29-33 | The rule-name list is in ascending order and is a permutation of the loaded rules' names, duplicates included. |
| Strings.SortStrings | commands/stats.go:33 | `sort.Strings` returns an ascending permutation of its input. |
| Strings.SortedPermutationUnique | commands/stats.go:33 | Two sorted permutations of the same strings are equal, so the sorted rule-name list is unique. |
| Strings.LessEqTotal | commands/stats.go:33 | The string order is total. |
| Strings.LessEqTransitive | commands/stats.go:33 | The string order is transitive. |
| Strings.LessEqAntisymmetric | commands/stats.go:33 | The string order is antisymmetric. |
| Report.ShowsShare | commands/stats.go:164 | A percentage is printed only when the value is below TOTAL. A nonnegative value therefore never has TOTAL = 0 as its divisor. |
| Report.ShareDivisorPositive | commands/stats.go:164-165 | When star, fork and watcher counts are nonnegative, every value in the final map is nonnegative. Whenever a percentage is printed, TOTAL is positive. |

## Left out

- Loading the audit, rules and appends (lines 19-40), and their error
  printing: I/O. `Aggregate` takes the loaded audit as a value.
- Aggregate: it requires every index entry to have a snapshot. state.go is
  not part of this model, and Go would read a zero-valued snapshot for a
  missing key.
- The clock (line 99): `time.Since(repo.Updated).Hours()` truncated to int is
  the snapshot field `hours`, a parameter fixed when the pass runs.
- The appends loop (lines 127-131): its body is empty, so it changes nothing
  in the map.
- Printing (lines 136-154 and 159-165) is not modelled:
  - the fixed print order and the loop over the sorted names;
  - the underscore replacement;
  - the float percentage and its `%5.2f` format;
  - the column padding with `strings.Repeat`, which panics on a negative
    count, that is, for a key longer than 22 bytes or a value wider than
    8 digits.
  Only the integer guard at line 164 is modelled.
- Go's `int` is 64 bits wide; the counters here are unbounded integers. No
  realistic audit reaches the wrap-around.
- Strings are sequences of code points, not UTF-8 bytes.
  - `sort.Strings` compares bytes. On well-formed UTF-8 this agrees with the
    code-point order used here.
  - `sort.Strings` sorts in place; it is modelled on values.
- A rule whose name equals a fixed counter's key adds its successes to that
  counter, because the pass shares one map. The model keeps this behaviour
  (`Expected`). The lemmas in `Summary` that give a fixed counter its meaning
  assume no rule succeeded under that name.
- Rule evaluation, the audit engine, and every field of a rule but its name
  are not part of this model.
