/** A job of several targets (`scripts/check_mutation_score.py`): its stats files arrive in any
    order, are grouped by target, merged target by target and summed. */
module MutationTargets {
  import opened Common
  import opened MutationPlan
  import opened MutationScore

  /** A stats file; an untagged one has the target `""`. */
  datatype StatsFile = StatsFile(target: string, stats: Stats)

  /** The stats of one target's files, in the order of arrival. */
  function OfTarget(files: seq<StatsFile>, name: string): seq<Stats> {
    if files == [] then []
    else
      var last := files[|files| - 1];
      OfTarget(files[..|files| - 1], name) + if last.target == name then [last.stats] else []
  }

  /** The targets in the order of their first file. */
  function Names(files: seq<StatsFile>): seq<string> {
    if files == [] then []
    else
      var names, last := Names(files[..|files| - 1]), files[|files| - 1].target;
      if last in names then names else names + [last]
  }

  method Group(files: seq<StatsFile>) returns (groups: map<string, seq<Stats>>, order: seq<string>)
    ensures order == Names(files) && groups.Keys == set n | n in order
    ensures forall n | n in groups :: groups[n] == OfTarget(files, n)
  {
    groups, order := map[], [];
    var i := 0;
    while i < |files|
      invariant 0 <= i <= |files|
      invariant order == Names(files[..i]) && groups.Keys == set n | n in order
      invariant forall n | n in groups :: groups[n] == OfTarget(files[..i], n)
    {
      var f := files[i];
      assert files[..i + 1][..i] == files[..i];
      NamesAre(files[..i], f.target);
      if f.target !in groups {
        groups, order := groups[f.target := []], order + [f.target];
      }
      groups := groups[f.target := groups[f.target] + [f.stats]];
      i := i + 1;
    }
    assert files[..i] == files;
  }

  // ----- the sum over the targets

  function AddTotal(a: Option<int>, b: Option<int>): Option<int> {
    if b.None? then a else Some((if a.Some? then a.value else 0) + b.value)
  }

  function AddTarget(a: Stats, b: Stats): Stats {
    Stats(a.counts.Plus(b.counts), AddTotal(a.total, b.total), a.excluded + b.excluded, a.phantom + b.phantom)
  }

  const NO_TARGET := Stats(NO_COUNTS, None, 0, 0)

  /** The sum of the named targets' stats. */
  function SumTargets(names: seq<string>, of: string -> Stats): Stats {
    if names == [] then NO_TARGET else AddTarget(SumTargets(names[..|names| - 1], of), of(names[|names| - 1]))
  }

  function MergedIn(files: seq<StatsFile>): string -> Stats {
    (name: string) => Merged(OfTarget(files, name))
  }

  /** The stats of the whole job. */
  function JobStats(files: seq<StatsFile>): Stats {
    SumTargets(Names(files), MergedIn(files))
  }

  lemma OneTarget(name: string, of: string -> Stats)
    ensures SumTargets([name], of) == of(name)
  {
    assert [name][..0] == [];
    assert NO_COUNTS.Plus(of(name).counts) == of(name).counts;
  }

  method MergeJob(files: seq<StatsFile>) returns (job: Stats)
    ensures job == JobStats(files)
  {
    hide Merged, OfTarget, Names, Counts.Plus;
    var groups, order := Group(files);
    if |order| == 1 {
      OneTarget(order[0], MergedIn(files));
      assert order == [order[0]];
      job := Merge(groups[order[0]]);
      return;
    }
    job := NO_TARGET;
    var i := 0;
    while i < |order|
      invariant 0 <= i <= |order|
      invariant job == SumTargets(order[..i], MergedIn(files))
    {
      assert order[..i + 1][..i] == order[..i];
      var merged := Merge(groups[order[i]]);
      job := AddTarget(job, merged);
      i := i + 1;
    }
    assert order[..i] == order;
  }

  // ----- the order of arrival does not matter

  predicate Distinct<T(==)>(s: seq<T>) {
    forall i, j | 0 <= i < j < |s| :: s[i] != s[j]
  }

  lemma {:induction false} NamesAre(files: seq<StatsFile>, name: string)
    ensures Distinct(Names(files))
    ensures name in Names(files) <==> OfTarget(files, name) != []
  {
    if files != [] {
      NamesAre(files[..|files| - 1], name);
      NamesAre(files[..|files| - 1], files[|files| - 1].target);
    }
  }

  lemma {:induction false} FilesOfTarget(files: seq<StatsFile>, name: string, stats: Stats)
    ensures multiset(OfTarget(files, name))[stats] == multiset(files)[StatsFile(name, stats)]
  {
    if files != [] {
      FilesOfTarget(files[..|files| - 1], name, stats);
      assert files == files[..|files| - 1] + [files[|files| - 1]];
    }
  }

  function Without<T>(s: seq<T>, i: nat): seq<T>
    requires i < |s|
  {
    s[..i] + s[i + 1..]
  }

  lemma WithoutMembers<T>(s: seq<T>, i: nat)
    requires i < |s|
    ensures multiset(Without(s, i)) == multiset(s) - multiset{s[i]}
  {
    assert s == s[..i] + [s[i]] + s[i + 1..];
  }

  lemma WithoutLast<T>(s: seq<T>, i: nat)
    requires i + 1 < |s|
    ensures var n := |s| - 1; Without(s, i) == Without(s[..n], i) + [s[n]]
  {
  }

  lemma {:induction false} PullCounts(shards: seq<Stats>, i: nat)
    requires i < |shards|
    ensures SumCounts(shards) == SumCounts(Without(shards, i)).Plus(shards[i].counts)
  {
    var n := |shards| - 1;
    if i == n {
      assert Without(shards, i) == shards[..n];
    } else {
      PullCounts(shards[..n], i);
      WithoutLast(shards, i);
      assert Without(shards, i)[..n - 1] == Without(shards[..n], i);
    }
  }

  lemma {:induction false} CountsAnyOrder(a: seq<Stats>, b: seq<Stats>)
    requires multiset(a) == multiset(b)
    ensures SumCounts(a) == SumCounts(b)
    decreases |a|
  {
    if a == [] {
      assert |multiset(b)| == 0;
      assert b == [];
    } else {
      var n := |a| - 1;
      assert a[n] in multiset(b);
      var j :| 0 <= j < |b| && b[j] == a[n];
      WithoutMembers(a, n);
      WithoutMembers(b, j);
      assert Without(a, n) == a[..n];
      CountsAnyOrder(a[..n], Without(b, j));
      PullCounts(b, j);
    }
  }

  lemma {:induction false} CoveredIs(shards: seq<Stats>)
    ensures Covered(shards) == SumCounts(shards).Total() - SumCounts(shards).skipped
  {
    hide Counts.Plus, Counts.Of;
    if shards != [] {
      var n := |shards| - 1;
      CoveredIs(shards[..n]);
      PlusTotal(SumCounts(shards[..n]), shards[n].counts);
      PlusSkipped(SumCounts(shards[..n]), shards[n].counts);
    }
  }

  lemma PlusSkipped(a: Counts, b: Counts)
    ensures a.Plus(b).skipped == a.skipped + b.skipped
  {
  }

  lemma {:induction false} LargestOf(shards: seq<Stats>) returns (i: nat, j: nat)
    requires shards != []
    ensures i < |shards| && shards[i].excluded == MaxExcluded(shards)
    ensures j < |shards| && shards[j].phantom == MaxPhantom(shards)
    ensures forall k | 0 <= k < |shards| ::
      shards[k].excluded <= MaxExcluded(shards) && shards[k].phantom <= MaxPhantom(shards)
  {
    i, j := 0, 0;
    if |shards| > 1 {
      var n := |shards| - 1;
      i, j := LargestOf(shards[..n]);
      assert forall k | 0 <= k < n :: shards[k] == shards[..n][k];
      i := if shards[i].excluded < shards[n].excluded then n else i;
      j := if shards[j].phantom < shards[n].phantom then n else j;
    }
  }

  lemma SameMembers(a: seq<Stats>, b: seq<Stats>, i: nat)
    requires multiset(a) == multiset(b) && i < |a|
    ensures exists j | 0 <= j < |b| :: b[j] == a[i]
  {
    assert a[i] in multiset(b);
  }

  lemma LargestAnyOrder(a: seq<Stats>, b: seq<Stats>)
    requires multiset(a) == multiset(b) && a != [] && b != []
    ensures MaxExcluded(a) <= MaxExcluded(b) && MaxPhantom(a) <= MaxPhantom(b)
  {
    var i, j := LargestOf(a);
    var _, _ := LargestOf(b);
    SameMembers(a, b, i);
    SameMembers(a, b, j);
  }

  lemma TotalsAnyOrder(a: seq<Stats>, b: seq<Stats>)
    requires multiset(a) == multiset(b)
    ensures CommonTotal(a) == CommonTotal(b)
  {
    var s := set i | 0 <= i < |a| && a[i].total.Some? :: a[i].total;
    var t := set i | 0 <= i < |b| && b[i].total.Some? :: b[i].total;
    forall x | x in s ensures x in t {
      var i :| 0 <= i < |a| && a[i].total == x;
      SameMembers(a, b, i);
    }
    forall x | x in t ensures x in s {
      var i :| 0 <= i < |b| && b[i].total == x;
      SameMembers(b, a, i);
    }
    assert s == t;
    if |s| == 1 {
      Singleton(s);
    }
  }

  /** One target's shards merge into the same stats, and pass the same check, in any order. */
  lemma ShardsAnyOrder(a: seq<Stats>, b: seq<Stats>, expected: bool)
    requires multiset(a) == multiset(b)
    ensures Merged(a) == Merged(b)
    ensures Consistency(a, expected) == None <==> Consistency(b, expected) == None
  {
    hide CommonTotal, MaxExcluded, MaxPhantom, SumCounts, Covered, Consistency, Counts.Total;
    CountsAnyOrder(a, b);
    CoveredIs(a);
    CoveredIs(b);
    TotalsAnyOrder(a, b);
    assert |a| == |multiset(a)| == |multiset(b)| == |b|;
    if a != [] {
      LargestAnyOrder(a, b);
      LargestAnyOrder(b, a);
    } else {
      assert b == [];
    }
    ConsistencyExact(a, expected);
    ConsistencyExact(b, expected);
    forall total, excluded ensures Agree(a, total, excluded) <==> Agree(b, total, excluded) {
      if Agree(a, total, excluded) { AgreeAnyOrder(a, b, total, excluded); }
      if Agree(b, total, excluded) { AgreeAnyOrder(b, a, total, excluded); }
    }
  }

  lemma AgreeAnyOrder(a: seq<Stats>, b: seq<Stats>, total: int, excluded: int)
    requires multiset(a) == multiset(b) && Agree(a, total, excluded)
    ensures Agree(b, total, excluded)
  {
    forall i | 0 <= i < |b| ensures b[i].total == Some(total) && b[i].excluded == excluded {
      SameMembers(b, a, i);
    }
  }

  lemma {:induction false} PullTarget(names: seq<string>, i: nat, of: string -> Stats)
    requires i < |names|
    ensures SumTargets(names, of) == AddTarget(SumTargets(Without(names, i), of), of(names[i]))
  {
    var n := |names| - 1;
    if i == n {
      assert Without(names, i) == names[..n];
    } else {
      PullTarget(names[..n], i, of);
      WithoutLast(names, i);
      assert Without(names, i)[..n - 1] == Without(names[..n], i);
    }
  }

  lemma {:induction false} TargetsAnyOrder(a: seq<string>, b: seq<string>, of: string -> Stats)
    requires multiset(a) == multiset(b)
    ensures SumTargets(a, of) == SumTargets(b, of)
    decreases |a|
  {
    hide AddTarget;
    if a == [] {
      assert |multiset(b)| == 0;
      assert b == [];
    } else {
      var n := |a| - 1;
      assert a[n] in multiset(b);
      var j :| 0 <= j < |b| && b[j] == a[n];
      WithoutMembers(a, n);
      WithoutMembers(b, j);
      assert Without(a, n) == a[..n];
      TargetsAnyOrder(a[..n], Without(b, j), of);
      PullTarget(b, j, of);
    }
  }

  lemma {:induction false} OnceEach(s: seq<string>, x: string)
    requires Distinct(s)
    ensures multiset(s)[x] == if x in s then 1 else 0
  {
    if s != [] {
      var n := |s| - 1;
      OnceEach(s[..n], x);
      assert s == s[..n] + [s[n]];
    }
  }

  lemma SameNames(a: seq<string>, b: seq<string>)
    requires Distinct(a) && Distinct(b) && forall n :: n in a <==> n in b
    ensures multiset(a) == multiset(b)
  {
    forall n ensures multiset(a)[n] == multiset(b)[n] {
      OnceEach(a, n);
      OnceEach(b, n);
    }
  }

  lemma {:induction false} SumSame(names: seq<string>, f: string -> Stats, g: string -> Stats)
    requires forall n | n in names :: f(n) == g(n)
    ensures SumTargets(names, f) == SumTargets(names, g)
  {
    hide AddTarget;
    if names != [] {
      SumSame(names[..|names| - 1], f, g);
    }
  }

  /** The job's stats do not depend on the order in which its files arrive. */
  lemma AnyArrival(a: seq<StatsFile>, b: seq<StatsFile>)
    requires multiset(a) == multiset(b)
    ensures JobStats(a) == JobStats(b)
  {
    hide Merged, OfTarget, Names, SumTargets;
    forall n ensures Merged(OfTarget(a, n)) == Merged(OfTarget(b, n)) && (n in Names(a) <==> n in Names(b)) {
      SameTarget(a, b, n);
      ShardsAnyOrder(OfTarget(a, n), OfTarget(b, n), true);
      NamesAre(a, n);
      NamesAre(b, n);
    }
    NamesAre(a, "");
    NamesAre(b, "");
    SameNames(Names(a), Names(b));
    TargetsAnyOrder(Names(a), Names(b), MergedIn(a));
    SumSame(Names(b), MergedIn(a), MergedIn(b));
  }

  lemma SameTarget(a: seq<StatsFile>, b: seq<StatsFile>, name: string)
    requires multiset(a) == multiset(b)
    ensures multiset(OfTarget(a, name)) == multiset(OfTarget(b, name))
    ensures OfTarget(a, name) == [] <==> OfTarget(b, name) == []
  {
    forall stats ensures multiset(OfTarget(a, name))[stats] == multiset(OfTarget(b, name))[stats] {
      FilesOfTarget(a, name, stats);
      FilesOfTarget(b, name, stats);
    }
    assert |multiset(OfTarget(a, name))| == |OfTarget(a, name)| && |multiset(OfTarget(b, name))| == |OfTarget(b, name)|;
  }

  // ----- the job is one unsharded run of every target

  ghost function ShardFiles(r: Runs): seq<Stats>
    requires r.Valid()
  {
    ShardedEqualsUnsharded(r);
    Exports(r.f, r.caches, r.t.scope)
  }

  ghost function WholeFile(r: Runs): Stats
    requires r.Valid()
  {
    ShardedEqualsUnsharded(r);
    Export([r.f.(rows := r.whole)], r.t.scope).value
  }

  ghost function WholeIn(runs: map<string, Runs>): string -> Stats {
    (n: string) => if n in runs && runs[n].Valid() then WholeFile(runs[n]) else NO_TARGET
  }

  /** The files are those of all shards of these targets, and no others, in any order. */
  ghost predicate Received(files: seq<StatsFile>, runs: map<string, Runs>) {
    forall n ::
      && (n in runs ==> runs[n].Valid())
      && multiset(OfTarget(files, n)) == if n in runs then multiset(ShardFiles(runs[n])) else multiset{}
  }

  ghost predicate Lists(order: seq<string>, runs: map<string, Runs>) {
    Distinct(order) && forall n :: n in order <==> n in runs
  }

  /** The shards received for one target pass the check and score as its unsharded run. */
  lemma TargetEqualsUnsharded(files: seq<StatsFile>, runs: map<string, Runs>, n: string)
    requires Received(files, runs) && n in runs
    ensures Consistency(OfTarget(files, n), true) == None
    ensures runs[n].Valid() && SameScores(Merged(OfTarget(files, n)), WholeFile(runs[n]))
  {
    hide Merged, Consistency, OfTarget, Export, SameScores, Runs.Valid;
    ShardedEqualsUnsharded(runs[n]);
    ShardsAnyOrder(ShardFiles(runs[n]), OfTarget(files, n), true);
  }

  lemma ReceivedNames(files: seq<StatsFile>, runs: map<string, Runs>)
    requires Received(files, runs)
    ensures Lists(Names(files), runs)
  {
    hide OfTarget, Names, ShardFiles;
    forall n ensures n in Names(files) <==> n in runs {
      NamesAre(files, n);
      assert |multiset(OfTarget(files, n))| == |OfTarget(files, n)|;
      if n in runs {
        SomeShard(runs[n]);
        assert |multiset(ShardFiles(runs[n]))| == |ShardFiles(runs[n])|;
      }
    }
    NamesAre(files, "");
  }

  lemma SomeShard(r: Runs)
    requires r.Valid()
    ensures ShardFiles(r) != []
  {
  }

  /** Stats that score alike, target by target, add up to stats that score alike. */
  lemma {:induction false} SumScores(names: seq<string>, f: string -> Stats, g: string -> Stats)
    requires forall n | n in names :: SameScores(f(n), g(n))
    ensures SameScores(SumTargets(names, f), SumTargets(names, g))
  {
    hide Score, RawScore, Counts.Of, Counts.Plus;
    if names != [] {
      var n := |names| - 1;
      SumScores(names[..n], f, g);
      assert names[n] in names;
    }
    ScoresFollow(SumTargets(names, f), SumTargets(names, g));
  }

  /** However the job is sharded and in whatever order its files arrive: every target passes the
      check, and the job's counts and scores are those of the sum of the targets' unsharded runs. */
  lemma JobEqualsUnsharded(files: seq<StatsFile>, runs: map<string, Runs>, order: seq<string>)
    requires Received(files, runs) && Lists(order, runs)
    ensures forall n | n in runs :: Consistency(OfTarget(files, n), true) == None
    ensures SameScores(JobStats(files), SumTargets(order, WholeIn(runs)))
  {
    hide SumTargets, Received, Merged, Consistency, SameScores, WholeFile, OfTarget, Names, Runs.Valid;
    ReceivedNames(files, runs);
    forall n | n in runs
      ensures Consistency(OfTarget(files, n), true) == None
      ensures SameScores(MergedIn(files)(n), WholeIn(runs)(n))
    {
      TargetEqualsUnsharded(files, runs, n);
    }
    SumScores(Names(files), MergedIn(files), WholeIn(runs));
    SameNames(Names(files), order);
    TargetsAnyOrder(Names(files), order, WholeIn(runs));
  }

  // ----- and so counts every mutant of every target

  /** Pairs of a name and a mutant of it. */
  ghost function Pairs(n: string, ms: set<Mutant>): set<(string, Mutant)> {
    set m | m in ms :: (n, m)
  }

  ghost function AllPairs(names: seq<string>, of: string -> set<Mutant>): set<(string, Mutant)> {
    set n, m | n in names && m in of(n) :: (n, m)
  }

  /** The mutants of each target, and those of them whose verdict is `s`. */
  ghost function MutantsOf(runs: map<string, Runs>): string -> set<Mutant> {
    (n: string) => if n in runs then runs[n].Generated() else {}
  }

  ghost function WithVerdict(runs: map<string, Runs>, s: Status): string -> set<Mutant> {
    (n: string) => if n in runs then ByVerdict(runs[n], s) else {}
  }

  ghost function ByVerdict(r: Runs, s: Status): set<Mutant> {
    set m | m in r.Generated() && Verdict(r.truth, m) == s
  }

  lemma {:induction false} PairsSize(n: string, ms: set<Mutant>)
    ensures |Pairs(n, ms)| == |ms|
  {
    if ms == {} {
      assert Pairs(n, ms) == {};
    } else {
      var m :| m in ms;
      PairsSize(n, ms - {m});
      assert Pairs(n, ms) == Pairs(n, ms - {m}) + {(n, m)};
    }
  }

  lemma OneMoreTarget(init: seq<string>, n: string, of: string -> set<Mutant>)
    requires n !in init
    ensures |AllPairs(init + [n], of)| == |AllPairs(init, of)| + |of(n)|
  {
    PairsSize(n, of(n));
    forall p ensures p in AllPairs(init + [n], of) <==> p in AllPairs(init, of) || p in Pairs(n, of(n)) {
      assert p.0 in init + [n] <==> p.0 in init || p.0 == n;
    }
    assert AllPairs(init + [n], of) == AllPairs(init, of) + Pairs(n, of(n));
    assert AllPairs(init, of) !! Pairs(n, of(n));
  }

  lemma NoTarget(of: string -> set<Mutant>, s: Status)
    ensures AllPairs([], of) == {} && NO_TARGET.counts.Of(s) == 0
  {
  }

  lemma WholeCounts(r: Runs)
    requires r.Valid()
    ensures WholeFile(r).total == Some(|r.Generated()|)
    ensures forall s | s != Skipped :: WholeFile(r).counts.Of(s) == |ByVerdict(r, s)|
  {
    hide Export, CacheOf, Counts.Of, PragmasCounted, Within, Verdict;
    WholeStats(r);
    FairDeal(r.t, r.f.generated, 0, 0);
    forall s | s != Skipped ensures RunWith(r.Process(None), r.truth, r.Generated(), s) == ByVerdict(r, s) {
    }
  }

  lemma {:induction false} SumCounted(names: seq<string>, runs: map<string, Runs>, s: Status)
    requires Distinct(names) && s != Skipped && forall n | n in names :: n in runs && runs[n].Valid()
    ensures SumTargets(names, WholeIn(runs)).counts.Of(s) == |AllPairs(names, WithVerdict(runs, s))|
    ensures SumTargets(names, WholeIn(runs)).total == if names == [] then None
      else Some(|AllPairs(names, MutantsOf(runs))|)
  {
    hide Runs.Valid, WholeFile, Counts.Of, Counts.Plus, Runs.Generated, AllPairs, ByVerdict;
    if names == [] {
      NoTarget(WithVerdict(runs, s), s);
    } else {
      var init, n := names[..|names| - 1], names[|names| - 1];
      assert names == init + [n] && n !in init;
      SumCounted(init, runs, s);
      WholeCounts(runs[n]);
      OneMoreTarget(init, n, WithVerdict(runs, s));
      OneMoreTarget(init, n, MutantsOf(runs));
      NoTarget(MutantsOf(runs), s);
    }
  }

  /** The job counts every mutant of every target once, under its verdict: it is one unsharded
      run of all targets. */
  lemma JobCountsEveryMutant(files: seq<StatsFile>, runs: map<string, Runs>, order: seq<string>)
    requires Received(files, runs) && Lists(order, runs)
    ensures forall s | s != Skipped :: JobStats(files).counts.Of(s) == |AllPairs(order, WithVerdict(runs, s))|
    ensures order != [] ==> JobStats(files).total == Some(|AllPairs(order, MutantsOf(runs))|)
  {
    hide SumTargets, Counts.Of, AllPairs, WithVerdict, MutantsOf, JobStats, Runs.Valid, Score, RawScore;
    JobEqualsUnsharded(files, runs, order);
    forall s | s != Skipped ensures JobStats(files).counts.Of(s) == |AllPairs(order, WithVerdict(runs, s))| {
      SumCounted(order, runs, s);
    }
    SumCounted(order, runs, Killed);
  }

  // ----- judging the job

  /** What `--expect-shards` states: nothing, a number of files, or a number for each target. */
  datatype Wanted = Anything | Files(n: nat) | PerTarget(shards: map<string, nat>)

  datatype Why = WrongFiles | Inconsistent(target: string) | NoScoreable(target: string) | NeverTested | NothingScored

  predicate FilesWanted(files: seq<StatsFile>, wanted: Wanted) {
    match wanted
    case Anything => true
    case Files(n) => |files| == n
    case PerTarget(shards) =>
      (forall n | n in Names(files) :: n in shards) && forall n | n in shards :: |OfTarget(files, n)| == shards[n]
  }

  predicate IsWanted(wanted: Wanted, name: string) {
    wanted.Files? || (wanted.PerTarget? && name in wanted.shards)
  }

  function FirstInconsistent(names: seq<string>, files: seq<StatsFile>, wanted: Wanted): Option<string> {
    if names == [] then None
    else if Consistency(OfTarget(files, names[0]), IsWanted(wanted, names[0])).Some? then Some(names[0])
    else FirstInconsistent(names[1..], files, wanted)
  }

  predicate Unscored(s: Stats) {
    s.total.None? || s.total.value == 0 || Score(s).None?
  }

  /** The first target without a scoreable mutant; an untagged one ends the search. */
  function FirstUnscored(names: seq<string>, files: seq<StatsFile>): Option<string> {
    if names == [] || names[0] == "" then None
    else if Unscored(Merged(OfTarget(files, names[0]))) then Some(names[0])
    else FirstUnscored(names[1..], files)
  }

  /** Why the job cannot be judged, if it cannot. */
  function JobReason(files: seq<StatsFile>, wanted: Wanted): Option<Why> {
    var names, job := Names(files), JobStats(files);
    if !FilesWanted(files, wanted) then Some(WrongFiles)
    else if FirstInconsistent(names, files, wanted).Some?
      then Some(Inconsistent(FirstInconsistent(names, files, wanted).value))
    else if FirstUnscored(names, files).Some? then Some(NoScoreable(FirstUnscored(names, files).value))
    else if job.counts.untested > 0 then Some(NeverTested)
    else if Score(job).None? then Some(NothingScored)
    else None
  }

  /** The exit code: 2 without a measurement, 1 below the floor, if there is one. */
  function ExitCode(files: seq<StatsFile>, wanted: Wanted, floor: Option<real>): int {
    if JobReason(files, wanted).Some? then 2
    else if floor.Some? && Score(JobStats(files)).value < floor.value then 1 else 0
  }

  method CheckShards(groups: map<string, seq<Stats>>, order: seq<string>, ghost files: seq<StatsFile>,
        wanted: Wanted)
    returns (bad: Option<string>)
    requires forall n | n in order :: n in groups && groups[n] == OfTarget(files, n)
    ensures bad == FirstInconsistent(order, files, wanted)
  {
    hide Consistency;
    var i := 0;
    while i < |order|
      invariant 0 <= i <= |order|
      invariant FirstInconsistent(order[i..], files, wanted) == FirstInconsistent(order, files, wanted)
    {
      var name := order[i];
      assert order[i..][1..] == order[i + 1..] && name in order;
      if Consistency(groups[name], IsWanted(wanted, name)).Some? {
        return Some(name);
      }
      i := i + 1;
    }
    return None;
  }

  method CheckScores(groups: map<string, seq<Stats>>, order: seq<string>, ghost files: seq<StatsFile>)
    returns (bad: Option<string>)
    requires forall n | n in order :: n in groups && groups[n] == OfTarget(files, n)
    ensures bad == FirstUnscored(order, files)
  {
    hide Merged, Unscored;
    var i := 0;
    while i < |order|
      invariant 0 <= i <= |order|
      invariant FirstUnscored(order[i..], files) == FirstUnscored(order, files)
    {
      var name := order[i];
      assert order[i..][1..] == order[i + 1..] && name in order;
      if name == "" {
        break;
      }
      var merged := Merge(groups[name]);
      if Unscored(merged) {
        return Some(name);
      }
      i := i + 1;
    }
    return None;
  }

  method JudgeJob(files: seq<StatsFile>, wanted: Wanted, floor: Option<real>) returns (code: int, why: Option<Why>)
    ensures why == JobReason(files, wanted) && code == ExitCode(files, wanted, floor)
  {
    hide FilesWanted, FirstInconsistent, FirstUnscored, JobStats, Score, Names, OfTarget;
    var groups, order := Group(files);
    if !FilesWanted(files, wanted) {
      return 2, Some(WrongFiles);
    }
    var odd := CheckShards(groups, order, files, wanted);
    if odd.Some? {
      return 2, Some(Inconsistent(odd.value));
    }
    var unscored := CheckScores(groups, order, files);
    if unscored.Some? {
      return 2, Some(NoScoreable(unscored.value));
    }
    var job := MergeJob(files);
    if job.counts.untested > 0 {
      return 2, Some(NeverTested);
    }
    var score := Score(job);
    if score.None? {
      return 2, Some(NothingScored);
    }
    return (if floor.Some? && score.value < floor.value then 1 else 0), None;
  }

  // ----- the verdict in terms of the mutants

  lemma {:induction false} AllConsistent(names: seq<string>, files: seq<StatsFile>, wanted: Wanted)
    ensures FirstInconsistent(names, files, wanted) == None <==>
      forall n | n in names :: Consistency(OfTarget(files, n), IsWanted(wanted, n)) == None
  {
    hide Consistency, OfTarget;
    if names != [] {
      AllConsistent(names[1..], files, wanted);
      assert names == [names[0]] + names[1..];
    }
  }

  lemma {:induction false} AllScored(names: seq<string>, files: seq<StatsFile>)
    requires "" !in names
    ensures FirstUnscored(names, files) == None <==> forall n | n in names :: !Unscored(Merged(OfTarget(files, n)))
  {
    hide Merged, OfTarget, Unscored;
    if names != [] {
      assert names == [names[0]] + names[1..] && names[0] in names;
      AllScored(names[1..], files);
    }
  }

  predicate IsScored(s: Status) {
    s.Killed? || s.Timeout? || s.Survived? || s.Suspicious?
  }

  /** Some mutant of the target was killed, timed out, survived or is suspicious. */
  ghost predicate Scoreable(r: Runs) {
    exists m :: m in r.Generated() && IsScored(Verdict(r.truth, m))
  }

  lemma ScoredExactly(counts: Stats)
    ensures Score(counts).Some? <==> exists s :: IsScored(s) && counts.counts.Of(s) > 0
  {
    assert counts.counts.Of(Killed) == counts.counts.killed && counts.counts.Of(Timeout) == counts.counts.timeout;
    assert counts.counts.Of(Survived) == counts.counts.survived
      && counts.counts.Of(Suspicious) == counts.counts.suspicious;
  }

  lemma SomePair(order: seq<string>, of: string -> set<Mutant>, n: string, m: Mutant)
    requires n in order && m in of(n)
    ensures |AllPairs(order, of)| > 0
  {
    assert (n, m) in AllPairs(order, of);
  }

  lemma NoPair(order: seq<string>, of: string -> set<Mutant>)
    ensures |AllPairs(order, of)| == 0 <==> forall n | n in order :: of(n) == {}
  {
    if AllPairs(order, of) != {} {
      var p :| p in AllPairs(order, of);
      assert p.0 in order && p.1 in of(p.0);
    }
    if n :| n in order && of(n) != {} {
      var m :| m in of(n);
      SomePair(order, of, n, m);
    }
  }

  /** A target is scored exactly if one of its mutants is scoreable. */
  lemma TargetScored(files: seq<StatsFile>, runs: map<string, Runs>, n: string)
    requires Received(files, runs) && n in runs
    ensures Unscored(Merged(OfTarget(files, n))) <==> !Scoreable(runs[n])
  {
    hide Merged, OfTarget, Score, RawScore, Runs.Valid, Counts.Of, ByVerdict, Verdict, Received, Consistency;
    var r, merged := runs[n], Merged(OfTarget(files, n));
    TargetEqualsUnsharded(files, runs, n);
    WholeCounts(r);
    SomeMutant(r);
    ScoredExactly(merged);
    forall s | IsScored(s)
      ensures merged.counts.Of(s) > 0 <==> exists m :: m in r.Generated() && Verdict(r.truth, m) == s
    {
      VerdictSeen(r, s);
    }
    if m :| m in r.Generated() && IsScored(Verdict(r.truth, m)) {
      assert merged.counts.Of(Verdict(r.truth, m)) > 0;
    }
  }

  lemma SomeMutant(r: Runs)
    requires r.Valid()
    ensures |r.Generated()| > 0
  {
  }

  lemma VerdictSeen(r: Runs, s: Status)
    ensures |ByVerdict(r, s)| > 0 <==> exists m :: m in r.Generated() && Verdict(r.truth, m) == s
  {
    hide Verdict;
    if m :| m in r.Generated() && Verdict(r.truth, m) == s {
      assert m in ByVerdict(r, s);
    }
    if ByVerdict(r, s) != {} {
      var m :| m in ByVerdict(r, s);
      assert m in r.Generated() && Verdict(r.truth, m) == s;
    }
  }

  /** How many mutants of the job were caught, and how many were caught or missed. */
  ghost function Caught(order: seq<string>, runs: map<string, Runs>): nat {
    |AllPairs(order, WithVerdict(runs, Killed))| + |AllPairs(order, WithVerdict(runs, Timeout))|
  }

  ghost function Judged(order: seq<string>, runs: map<string, Runs>): nat {
    Caught(order, runs)
    + |AllPairs(order, WithVerdict(runs, Survived))| + |AllPairs(order, WithVerdict(runs, Suspicious))|
  }

  /** Every target has a scoreable mutant and no mutant was left untested. */
  ghost predicate Complete(order: seq<string>, runs: map<string, Runs>) {
    && order != []
    && forall n | n in runs :: Scoreable(runs[n]) && ByVerdict(runs[n], Untested) == {}
  }

  ghost function ShardCounts(runs: map<string, Runs>): Wanted {
    PerTarget(map n | n in runs :: runs[n].t.shards)
  }

  lemma TargetSize(files: seq<StatsFile>, runs: map<string, Runs>, n: string)
    requires Received(files, runs) && n in runs
    ensures |OfTarget(files, n)| == runs[n].t.shards
  {
    hide OfTarget, Export;
    var shards := ShardFiles(runs[n]);
    assert |shards| == runs[n].t.shards;
    hide Runs.Valid, ShardFiles;
    assert |multiset(OfTarget(files, n))| == |OfTarget(files, n)| && |multiset(shards)| == |shards|;
  }

  /** The shards received raise no objection, except that a target has nothing to score. */
  lemma OnlyUnscored(files: seq<StatsFile>, runs: map<string, Runs>)
    requires Received(files, runs) && "" !in runs
    ensures FilesWanted(files, ShardCounts(runs))
    ensures FirstInconsistent(Names(files), files, ShardCounts(runs)) == None
    ensures FirstUnscored(Names(files), files) == None <==> forall n | n in runs :: Scoreable(runs[n])
  {
    hide FirstInconsistent, FirstUnscored, Consistency, Merged, OfTarget, Unscored, Scoreable, Received, Names,
      SameScores,
      Runs.Valid, ShardFiles;
    ReceivedNames(files, runs);
    AllConsistent(Names(files), files, ShardCounts(runs));
    AllScored(Names(files), files);
    forall n | n in runs
      ensures |OfTarget(files, n)| == runs[n].t.shards && Consistency(OfTarget(files, n), true) == None
      ensures Unscored(Merged(OfTarget(files, n))) <==> !Scoreable(runs[n])
    {
      TargetSize(files, runs, n);
      TargetEqualsUnsharded(files, runs, n);
      TargetScored(files, runs, n);
    }
  }

  /** The job's score is the share of its mutants that were caught. */
  lemma JobScore(files: seq<StatsFile>, runs: map<string, Runs>, order: seq<string>)
    requires Received(files, runs) && Lists(order, runs)
    ensures JobStats(files).counts.untested == |AllPairs(order, WithVerdict(runs, Untested))|
    ensures Score(JobStats(files))
         == if Judged(order, runs) == 0 then None else Some(Caught(order, runs) as real / Judged(order, runs) as real)
  {
    hide JobStats, AllPairs, WithVerdict, MutantsOf, Received;
    JobCountsEveryMutant(files, runs, order);
    var c := JobStats(files).counts;
    assert c.Of(Killed) == c.killed && c.Of(Timeout) == c.timeout && c.Of(Untested) == c.untested;
    assert c.Of(Survived) == c.survived && c.Of(Suspicious) == c.suspicious;
  }

  /** Some scoreable target gives the job a score. */
  lemma SomeJudged(order: seq<string>, runs: map<string, Runs>, n: string)
    requires n in order && n in runs && Scoreable(runs[n])
    ensures Judged(order, runs) > 0
  {
    hide AllPairs, Verdict;
    var m :| m in runs[n].Generated() && IsScored(Verdict(runs[n].truth, m));
    var s := Verdict(runs[n].truth, m);
    assert m in WithVerdict(runs, s)(n);
    SomePair(order, WithVerdict(runs, s), n, m);
  }

  lemma BelowFloor(caught: nat, judged: nat, floor: real)
    requires judged > 0
    ensures caught as real / judged as real < floor <==> caught as real < floor * judged as real
  {
    var x := caught as real / judged as real;
    assert x * judged as real == caught as real;
  }

  /** The job is judged exactly if every target has a scoreable mutant and nothing is untested, and
      then it fails exactly if the share of its mutants that were caught is below the floor,
      however it is sharded and in whatever order its files arrive. */
  lemma JobVerdictExact(files: seq<StatsFile>, runs: map<string, Runs>, order: seq<string>, floor: Option<real>)
    requires Received(files, runs) && Lists(order, runs) && "" !in runs
    ensures ExitCode(files, ShardCounts(runs), floor)
         == if !Complete(order, runs) then 2
            else if floor.Some? && Caught(order, runs) as real < floor.value * Judged(order, runs) as real then 1 else 0
  {
    hide FilesWanted, FirstInconsistent, FirstUnscored, JobStats, Scoreable, Received, ShardCounts, AllPairs, ByVerdict,
      Names, Score, Caught, Judged;
    OnlyUnscored(files, runs);
    JobScore(files, runs, order);
    NoPair(order, WithVerdict(runs, Untested));
    if order == [] {
      NothingJudged(runs);
    } else if forall n | n in runs :: Scoreable(runs[n]) {
      SomeJudged(order, runs, order[0]);
    }
    if Judged(order, runs) > 0 && floor.Some? {
      BelowFloor(Caught(order, runs), Judged(order, runs), floor.value);
    }
  }

  lemma NothingJudged(runs: map<string, Runs>)
    ensures Judged([], runs) == 0
  {
    NoTarget(WithVerdict(runs, Killed), Killed);
    NoTarget(WithVerdict(runs, Timeout), Killed);
    NoTarget(WithVerdict(runs, Survived), Killed);
    NoTarget(WithVerdict(runs, Suspicious), Killed);
  }

  // ----- why a job is not judged, whatever was received

  /** As many files came as were asked for, in all or for each target, and for no other. */
  ghost predicate AsAsked(files: seq<StatsFile>, wanted: Wanted) {
    match wanted
    case Anything => true
    case Files(n) => |files| == n
    case PerTarget(shards) => forall name :: |OfTarget(files, name)| == if name in shards then shards[name] else 0
  }

  /** Shards of the target are to be compared, because there are several or their number was asked
      for, and they do not make up one run. */
  ghost predicate Odd(files: seq<StatsFile>, wanted: Wanted, name: string) {
    var shards := OfTarget(files, name);
    var asked := match wanted case Anything => false case Files(_) => true case PerTarget(s) => name in s;
    && (|shards| >= 2 || asked)
    && !(shards != [] && exists total, excluded :: Agree(shards, total, excluded) && Covered(shards) == total)
  }

  ghost predicate NothingToScore(s: Stats) {
    s.counts.killed == 0 && s.counts.timeout == 0 && s.counts.survived == 0 && s.counts.suspicious == 0
  }

  /** The target's shards state no mutants, or none of them can be scored. */
  ghost predicate Dead(files: seq<StatsFile>, name: string) {
    var s := Merged(OfTarget(files, name));
    s.total == None || s.total == Some(0) || NothingToScore(s)
  }

  /** `t` is hit, and all before it are good. */
  ghost predicate FirstHit(ts: seq<string>, good: string -> bool, hit: string -> bool, t: string) {
    exists k :: 0 <= k < |ts| && ts[k] == t && hit(t) && forall l | 0 <= l < k :: good(ts[l])
  }

  ghost function TargetsOf(files: seq<StatsFile>): seq<string> {
    seq(|files|, i requires 0 <= i < |files| => files[i].target)
  }

  lemma FirstHitSnoc(ts: seq<string>, x: string, good: string -> bool, hit: string -> bool, t: string)
    ensures FirstHit(ts + [x], good, hit, t) <==>
      FirstHit(ts, good, hit, t) || (x == t && hit(t) && forall y | y in ts :: good(y))
  {
    var all := ts + [x];
    assert all[|ts|] == x && forall l | 0 <= l < |ts| :: all[l] == ts[l];
    if k :| 0 <= k < |all| && all[k] == t && hit(t) && forall l | 0 <= l < k :: good(all[l]) {
      if k == |ts| {
        forall y | y in ts ensures good(y) {
          var l :| 0 <= l < |ts| && ts[l] == y;
          assert all[l] == y;
        }
      }
    }
    if k :| 0 <= k < |ts| && ts[k] == t && hit(t) && forall l | 0 <= l < k :: good(ts[l]) {
      assert all[k] == t;
    }
  }

  /** Going through the targets in the order of their first file is going through the files. */
  lemma {:induction false} NamesHit(files: seq<StatsFile>, good: string -> bool, hit: string -> bool, t: string)
    requires forall x :: !(good(x) && hit(x))
    ensures FirstHit(Names(files), good, hit, t) <==> FirstHit(TargetsOf(files), good, hit, t)
    ensures forall x :: x in Names(files) <==> x in TargetsOf(files)
  {
    hide FirstHit;
    if files == [] {
      assert Names(files) == TargetsOf(files);
    } else {
      var init, x := files[..|files| - 1], files[|files| - 1].target;
      NamesHit(init, good, hit, t);
      assert TargetsOf(files) == TargetsOf(init) + [x];
      FirstHitSnoc(TargetsOf(init), x, good, hit, t);
      FirstHitSnoc(Names(init), x, good, hit, t);
    }
  }

  /** The first file of a target whose shards make up no run is one of `t`. */
  ghost predicate FirstOdd(files: seq<StatsFile>, wanted: Wanted, t: string) {
    FirstHit(TargetsOf(files), n => !Odd(files, wanted, n), n => Odd(files, wanted, n), t)
  }

  /** The first file of a target that is dead is one of `t`, and no file before it is untagged. */
  ghost predicate FirstDead(files: seq<StatsFile>, t: string) {
    FirstHit(TargetsOf(files), n => n != "" && !Dead(files, n), n => n != "" && Dead(files, n), t)
  }

  lemma {:induction false} InconsistentIs(names: seq<string>, files: seq<StatsFile>, wanted: Wanted, t: string)
    ensures FirstInconsistent(names, files, wanted) == Some(t) <==>
      FirstHit(names, n => !Odd(files, wanted, n), n => Odd(files, wanted, n), t)
  {
    hide Odd, Consistency;
    if names != [] {
      var rest := names[1..];
      InconsistentIs(rest, files, wanted, t);
      OddExact(files, wanted, names[0]);
      FirstHitCons(names, n => !Odd(files, wanted, n), n => Odd(files, wanted, n), t);
    }
  }

  lemma FirstHitCons(ts: seq<string>, good: string -> bool, hit: string -> bool, t: string)
    requires ts != []
    ensures FirstHit(ts, good, hit, t) <==> (ts[0] == t && hit(t)) || (good(ts[0]) && FirstHit(ts[1..], good, hit, t))
  {
    var rest := ts[1..];
    assert forall l | 0 <= l < |rest| :: rest[l] == ts[l + 1];
    if k :| 0 <= k < |ts| && ts[k] == t && hit(t) && forall l | 0 <= l < k :: good(ts[l]) {
      if k > 0 {
        assert rest[k - 1] == t && forall l | 0 <= l < k - 1 :: good(rest[l]);
      }
    }
    if k :| 0 <= k < |rest| && rest[k] == t && hit(t) && forall l | 0 <= l < k :: good(rest[l]) {
      if good(ts[0]) {
        forall l | 0 <= l < k + 1 ensures good(ts[l]) {
          assert l > 0 ==> ts[l] == rest[l - 1];
        }
        assert ts[k + 1] == t;
      }
    }
  }

  lemma OddExact(files: seq<StatsFile>, wanted: Wanted, name: string)
    ensures Odd(files, wanted, name) <==> Consistency(OfTarget(files, name), IsWanted(wanted, name)).Some?
  {
    hide OfTarget, Covered, Consistency, Agree;
    ConsistencyExact(OfTarget(files, name), IsWanted(wanted, name));
  }

  lemma {:induction false} UnscoredIs(names: seq<string>, files: seq<StatsFile>, t: string)
    ensures FirstUnscored(names, files) == Some(t) <==>
      FirstHit(names, n => n != "" && !Dead(files, n), n => n != "" && Dead(files, n), t)
  {
    hide Dead, Merged, Unscored, OfTarget;
    if names != [] {
      UnscoredIs(names[1..], files, t);
      assert Dead(files, names[0]) <==> Unscored(Merged(OfTarget(files, names[0]))) by {
        DeadExact(files, names[0]);
      }
      FirstHitCons(names, n => n != "" && !Dead(files, n), n => n != "" && Dead(files, n), t);
    }
  }

  lemma DeadExact(files: seq<StatsFile>, name: string)
    ensures Dead(files, name) <==> Unscored(Merged(OfTarget(files, name)))
  {
    hide Merged, OfTarget;
  }

  lemma AskedExact(files: seq<StatsFile>, wanted: Wanted)
    ensures FilesWanted(files, wanted) <==> AsAsked(files, wanted)
  {
    hide OfTarget;
    if wanted.PerTarget? {
      forall name ensures name in Names(files) <==> |OfTarget(files, name)| > 0 {
        ReceivedSome(files, name);
      }
    }
  }

  lemma {:induction false} ReceivedSome(files: seq<StatsFile>, name: string)
    ensures name in Names(files) <==> |OfTarget(files, name)| > 0
  {
    if files != [] {
      ReceivedSome(files[..|files| - 1], name);
    }
  }

  /** The one reason not to judge a job, in the script's order: other files than were asked for; the
      first target whose shards make up no run; the first target, up to one without a tag, that is
      dead; a mutant that was never tested; nothing to score. A job is judged exactly if none of
      these applies. */
  lemma ReasonExact(files: seq<StatsFile>, wanted: Wanted)
    ensures var job := JobStats(files);
      var anyOdd, anyDead := exists n :: FirstOdd(files, wanted, n), exists n :: FirstDead(files, n);
      match JobReason(files, wanted)
      case Some(WrongFiles) => !AsAsked(files, wanted)
      case Some(Inconsistent(t)) => AsAsked(files, wanted) && FirstOdd(files, wanted, t)
      case Some(NoScoreable(t)) => AsAsked(files, wanted) && !anyOdd && FirstDead(files, t)
      case Some(NeverTested) => AsAsked(files, wanted) && !anyOdd && !anyDead && job.counts.untested > 0
      case Some(NothingScored) =>
        AsAsked(files, wanted) && !anyOdd && !anyDead && job.counts.untested == 0 && NothingToScore(job)
      case None =>
        AsAsked(files, wanted) && !anyOdd && !anyDead && job.counts.untested == 0 && !NothingToScore(job)
  {
    hide FilesWanted, FirstInconsistent, FirstUnscored, JobStats, Odd, Dead, FirstHit, AsAsked;
    AskedExact(files, wanted);
    forall t
      ensures FirstInconsistent(Names(files), files, wanted) == Some(t) <==> FirstOdd(files, wanted, t)
      ensures FirstUnscored(Names(files), files) == Some(t) <==> FirstDead(files, t)
    {
      InconsistentIs(Names(files), files, wanted, t);
      NamesHit(files, n => !Odd(files, wanted, n), n => Odd(files, wanted, n), t);
      UnscoredIs(Names(files), files, t);
      NamesHit(files, n => n != "" && !Dead(files, n), n => n != "" && Dead(files, n), t);
    }
  }

  /** The exit code: 2 if the job is not judged, 1 if it is and its score is below the floor. */
  lemma ExitExact(files: seq<StatsFile>, wanted: Wanted, floor: Option<real>)
    ensures var job := JobStats(files);
      var caught, all := job.counts.killed + job.counts.timeout,
        job.counts.killed + job.counts.timeout + job.counts.survived + job.counts.suspicious;
      match ExitCode(files, wanted, floor)
      case 0 =>
        JobReason(files, wanted) == None && (floor.Some? ==> all > 0 && caught as real >= floor.value * all as real)
      case 1 => JobReason(files, wanted) == None && floor.Some? && caught as real < floor.value * all as real
      case c => c == 2 && JobReason(files, wanted) != None
  {
    hide JobStats, FilesWanted, FirstInconsistent, FirstUnscored;
    var job := JobStats(files);
    if JobReason(files, wanted) == None && floor.Some? {
      BelowFloor(Detected(job.counts), Detected(job.counts) + job.counts.survived + job.counts.suspicious, floor.value);
    }
  }
}
