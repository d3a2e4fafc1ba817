/** The verdict on one main pipeline's jobs, from `scripts/wait-for-main-pipeline.py`. */
module JobVerdict {
  import opened Common
  import NameOrder

  datatype Status =
    | Success | Failed | Canceled | Skipped | Manual
    | Created | WaitingForResource | Preparing | Pending | Running | Scheduled | Canceling
    | Unrecognized(text: string)

  datatype Job = Job(id: int, name: string, status: Status, allowFailure: bool)

  /** The lists the verdict rests on, and how a parallel job's name is cut to its base name. */
  datatype Policy = Policy(always: seq<string>, warn: set<string>, exempt: set<string>, base: string -> string)

  predicate InProgress(s: Status) {
    s.Created? || s.WaitingForResource? || s.Preparing? || s.Pending? || s.Running? || s.Scheduled? || s.Canceling?
  }

  datatype Verdict = Pass | Wait | Refuse

  datatype Line = Missing(name: string) | NoJobs | Of(job: Job)

  datatype Report = Report(verdict: Verdict, problems: seq<Line>, waiting: seq<Line>, notes: seq<Line>)

  /** How one job's status counts. `failed`, `canceled`, `skipped`, `manual` and every unknown
      status are problems. */
  datatype Class = Fine | Waiting | Noted | Problem

  function Classify(policy: Policy, job: Job): Class {
    if policy.base(job.name) in policy.exempt || job.status.Success? then Fine
    else if InProgress(job.status) then Waiting
    else if job.status.Failed? && job.allowFailure && policy.base(job.name) in policy.warn then Noted
    else Problem
  }

  type Latest = map<string, Job>

  /** The newest job of each name; of two with the same id, the one listed first. */
  function LatestOf(jobs: seq<Job>): Latest {
    if jobs == [] then map[]
    else
      var before, job := LatestOf(jobs[..|jobs| - 1]), jobs[|jobs| - 1];
      if job.name !in before || job.id > before[job.name].id then before[job.name := job] else before
  }

  function Present(policy: Policy, latest: Latest): set<string> {
    set n | n in latest :: policy.base(n)
  }

  function MissingLines(always: seq<string>, present: set<string>): seq<Line> {
    if always == [] then []
    else (if always[0] !in present then [Missing(always[0])] else []) + MissingLines(always[1..], present)
  }

  /** The jobs of one class among `names`, in that order. */
  function ClassLines(policy: Policy, latest: Latest, names: seq<string>, c: Class): seq<Line>
    requires forall n | n in names :: n in latest
  {
    if names == [] then []
    else (if Classify(policy, latest[names[0]]) == c then [Of(latest[names[0]])] else [])
         + ClassLines(policy, latest, names[1..], c)
  }

  function ReportOf(policy: Policy, latest: Latest): Report {
    var names := NameOrder.Sorted(latest.Keys);
    var problems := MissingLines(policy.always, Present(policy, latest)) + ClassLines(policy, latest, names, Problem);
    var waiting := ClassLines(policy, latest, names, Waiting);
    Report(if problems != [] then Refuse else if waiting != [] then Wait else Pass,
           problems, waiting, ClassLines(policy, latest, names, Noted))
  }

  function Judge(policy: Policy, jobs: seq<Job>): Report {
    if jobs == [] then Report(Wait, [], [NoJobs], []) else ReportOf(policy, LatestOf(jobs))
  }

  method CollectLatest(jobs: seq<Job>) returns (latest: Latest)
    ensures latest == LatestOf(jobs)
  {
    latest := map[];
    var i := 0;
    while i < |jobs|
      invariant 0 <= i <= |jobs|
      invariant latest == LatestOf(jobs[..i])
    {
      var job := jobs[i];
      assert jobs[..i + 1][..i] == jobs[..i];
      if job.name !in latest || job.id > latest[job.name].id {
        latest := latest[job.name := job];
      }
      i := i + 1;
    }
    assert jobs[..i] == jobs;
  }

  lemma NextMissing(always: seq<string>, present: set<string>, i: nat, acc: seq<Line>)
    requires i < |always|
    ensures var here := if always[i] !in present then [Missing(always[i])] else [];
      acc + MissingLines(always[i..], present) == acc + here + MissingLines(always[i + 1..], present)
  {
    assert always[i..][1..] == always[i + 1..];
  }

  method CollectMissing(always: seq<string>, present: set<string>) returns (problems: seq<Line>)
    ensures problems == MissingLines(always, present)
  {
    problems := [];
    var i := 0;
    while i < |always|
      invariant 0 <= i <= |always|
      invariant problems + MissingLines(always[i..], present) == MissingLines(always, present)
    {
      NextMissing(always, present, i, problems);
      assert problems + [] == problems;
      if always[i] !in present {
        problems := problems + [Missing(always[i])];
      }
      i := i + 1;
    }
  }

  lemma NextLine(policy: Policy, latest: Latest, names: seq<string>, i: nat, acc: seq<Line>, c: Class)
    requires i < |names| && forall n | n in names :: n in latest
    ensures var here := if Classify(policy, latest[names[i]]) == c then [Of(latest[names[i]])] else [];
      acc + ClassLines(policy, latest, names[i..], c) == acc + here + ClassLines(policy, latest, names[i + 1..], c)
  {
    assert names[i..][1..] == names[i + 1..];
  }

  method CollectLines(policy: Policy, latest: Latest, names: seq<string>) returns (problems: seq<Line>,
        waiting: seq<Line>, notes: seq<Line>)
    requires forall n | n in names :: n in latest
    ensures problems == ClassLines(policy, latest, names, Problem)
    ensures waiting == ClassLines(policy, latest, names, Waiting)
    ensures notes == ClassLines(policy, latest, names, Noted)
  {
    hide Classify, ClassLines;
    problems, waiting, notes := [], [], [];
    var i := 0;
    while i < |names|
      invariant 0 <= i <= |names|
      invariant problems + ClassLines(policy, latest, names[i..], Problem) == ClassLines(policy, latest, names, Problem)
      invariant waiting + ClassLines(policy, latest, names[i..], Waiting) == ClassLines(policy, latest, names, Waiting)
      invariant notes + ClassLines(policy, latest, names[i..], Noted) == ClassLines(policy, latest, names, Noted)
    {
      NextLine(policy, latest, names, i, problems, Problem);
      NextLine(policy, latest, names, i, waiting, Waiting);
      NextLine(policy, latest, names, i, notes, Noted);
      assert problems + [] == problems && waiting + [] == waiting && notes + [] == notes;
      assert names[i] in names;
      var job := latest[names[i]];
      match Classify(policy, job) {
        case Fine =>
        case Waiting => waiting := waiting + [Of(job)];
        case Noted => notes := notes + [Of(job)];
        case Problem => problems := problems + [Of(job)];
      }
      i := i + 1;
    }
    NoLines(policy, latest, problems, waiting, notes, names[i..]);
  }

  lemma NoLines(policy: Policy, latest: Latest, problems: seq<Line>, waiting: seq<Line>, notes: seq<Line>,
        names: seq<string>)
    requires names == []
    ensures problems + ClassLines(policy, latest, names, Problem) == problems
    ensures waiting + ClassLines(policy, latest, names, Waiting) == waiting
    ensures notes + ClassLines(policy, latest, names, Noted) == notes
  {
  }

  method Evaluate(policy: Policy, jobs: seq<Job>) returns (report: Report)
    ensures report == Judge(policy, jobs)
  {
    if jobs == [] {
      return Report(Wait, [], [NoJobs], []);
    }
    var latest := CollectLatest(jobs);
    var missing := CollectMissing(policy.always, Present(policy, latest));
    var failed, waiting, notes := CollectLines(policy, latest, NameOrder.Sorted(latest.Keys));
    var problems := missing + failed;
    if problems != [] {
      return Report(Refuse, problems, waiting, notes);
    }
    if waiting != [] {
      return Report(Wait, problems, waiting, notes);
    }
    return Report(Pass, problems, waiting, notes);
  }

  // ----- what the verdict means

  /** The attempt at place `i` is the newest of its name: it has the highest id, and is listed first
      of those that have it. */
  ghost predicate NewestAt(jobs: seq<Job>, i: nat) {
    i < |jobs| && forall j: nat | j < |jobs| && jobs[j].name == jobs[i].name ::
      if j < i then jobs[j].id < jobs[i].id else jobs[j].id <= jobs[i].id
  }

  ghost predicate Newest(jobs: seq<Job>, job: Job) {
    exists i: nat :: NewestAt(jobs, i) && jobs[i] == job
  }

  /** A later attempt that is not newer changes nothing. */
  lemma StaysNewest(init: seq<Job>, job: Job, kept: Job)
    requires Newest(init, kept) && (job.name == kept.name ==> job.id <= kept.id)
    ensures Newest(init + [job], kept)
  {
    var i: nat :| NewestAt(init, i) && init[i] == kept;
    var jobs := init + [job];
    assert jobs[|init|] == job && forall j: nat | j < |init| :: jobs[j] == init[j];
    assert NewestAt(jobs, i) && jobs[i] == kept;
  }

  lemma BecomesNewest(init: seq<Job>, job: Job)
    requires forall other | other in init && other.name == job.name :: other.id < job.id
    ensures Newest(init + [job], job)
  {
    var jobs := init + [job];
    assert jobs[|init|] == job && forall j: nat | j < |init| :: jobs[j] == init[j] && init[j] in init;
    assert NewestAt(jobs, |init|);
  }

  /** What is kept for a name is its newest attempt, and every name is kept. */
  lemma {:induction false} LatestExact(jobs: seq<Job>)
    ensures forall n | n in LatestOf(jobs) :: LatestOf(jobs)[n].name == n && Newest(jobs, LatestOf(jobs)[n])
    ensures forall job | job in jobs :: job.name in LatestOf(jobs) && job.id <= LatestOf(jobs)[job.name].id
  {
    if jobs != [] {
      hide Newest;
      var init, job := jobs[..|jobs| - 1], jobs[|jobs| - 1];
      LatestExact(init);
      assert jobs == init + [job];
      forall n | n in LatestOf(jobs) ensures LatestOf(jobs)[n].name == n && Newest(jobs, LatestOf(jobs)[n]) {
        if n == job.name && (n !in LatestOf(init) || job.id > LatestOf(init)[n].id) {
          BecomesNewest(init, job);
        } else {
          StaysNewest(init, job, LatestOf(init)[n]);
        }
      }
    }
  }

  /** A name has one newest attempt, and it is the one kept. */
  lemma NewestIsLatest(jobs: seq<Job>, job: Job)
    requires Newest(jobs, job)
    ensures job.name in LatestOf(jobs) && LatestOf(jobs)[job.name] == job
  {
    LatestExact(jobs);
    var i: nat :| NewestAt(jobs, i) && jobs[i] == job;
    assert job in jobs;
    var j: nat :| NewestAt(jobs, j) && jobs[j] == LatestOf(jobs)[job.name];
    assert i == j;
  }

  // ----- when each line is reported

  /** A release can never rest on such a job: it ended in a state that is no success, and is
      neither exempt nor an allowed failure that is tolerated. */
  ghost predicate Blocks(policy: Policy, job: Job) {
    && policy.base(job.name) !in policy.exempt
    && match job.status
       case Failed => !(job.allowFailure && policy.base(job.name) in policy.warn)
       case Canceled => true
       case Skipped => true
       case Manual => true
       case Unrecognized(_) => true
       case _ => false
  }

  ghost predicate Unfinished(policy: Policy, job: Job) {
    && policy.base(job.name) !in policy.exempt
    && job.status in {Created, WaitingForResource, Preparing, Pending, Running, Scheduled, Canceling}
  }

  ghost predicate Tolerated(policy: Policy, job: Job) {
    && policy.base(job.name) !in policy.exempt
    && job.status == Failed && job.allowFailure && policy.base(job.name) in policy.warn
  }

  ghost predicate AllPresent(policy: Policy, jobs: seq<Job>) {
    forall n | n in policy.always :: IsPresent(policy, jobs, n)
  }

  ghost predicate IsPresent(policy: Policy, jobs: seq<Job>, name: string) {
    exists job :: job in jobs && policy.base(job.name) == name
  }

  ghost predicate HasNewest(jobs: seq<Job>, counts: Job -> bool) {
    exists job :: Newest(jobs, job) && counts(job)
  }

  lemma ClassifyExact(policy: Policy, job: Job)
    ensures Classify(policy, job) == Problem <==> Blocks(policy, job)
    ensures Classify(policy, job) == Waiting <==> Unfinished(policy, job)
    ensures Classify(policy, job) == Noted <==> Tolerated(policy, job)
  {
  }

  lemma {:induction false} MissingLinesExact(always: seq<string>, present: set<string>, line: Line)
    ensures line in MissingLines(always, present) <==> line.Missing? && line.name in always && line.name !in present
  {
    if always != [] {
      MissingLinesExact(always[1..], present, line);
      assert always == [always[0]] + always[1..];
    }
  }

  lemma {:induction false} ClassLinesExact(policy: Policy, latest: Latest, names: seq<string>, c: Class, line: Line)
    requires forall n | n in names :: n in latest
    ensures line in ClassLines(policy, latest, names, c) <==>
      exists n :: n in names && line == Of(latest[n]) && Classify(policy, latest[n]) == c
  {
    hide Classify;
    if names != [] {
      ClassLinesExact(policy, latest, names[1..], c, line);
      assert names == [names[0]] + names[1..];
    }
  }

  /** A line about a job is in the list of its class exactly if the job is a newest attempt. */
  lemma ClassMeaning(policy: Policy, jobs: seq<Job>, c: Class, line: Line)
    ensures var latest := LatestOf(jobs);
      line in ClassLines(policy, latest, NameOrder.Sorted(latest.Keys), c) <==>
      line.Of? && Newest(jobs, line.job) && Classify(policy, line.job) == c
  {
    hide Classify, LatestOf, Newest, NameOrder.Sorted;
    var latest := LatestOf(jobs);
    LatestExact(jobs);
    assert forall n :: n in NameOrder.Sorted(latest.Keys) <==> n in latest;
    ClassLinesExact(policy, latest, NameOrder.Sorted(latest.Keys), c, line);
    if line.Of? && Newest(jobs, line.job) {
      NewestIsLatest(jobs, line.job);
    }
  }

  lemma PresentMeaning(policy: Policy, jobs: seq<Job>)
    ensures forall n :: n in Present(policy, LatestOf(jobs)) <==> IsPresent(policy, jobs, n)
  {
    hide LatestOf;
    LatestExact(jobs);
    forall n | n in Present(policy, LatestOf(jobs)) ensures IsPresent(policy, jobs, n) {
      var m :| m in LatestOf(jobs) && policy.base(m) == n;
      var i: nat :| NewestAt(jobs, i) && jobs[i] == LatestOf(jobs)[m];
      assert LatestOf(jobs)[m] in jobs;
    }
  }

  /** Which lines are reported: problems are the required names that no job has and the newest
      attempts that block, the waiting are the newest attempts that are not finished, and notes
      are those that failed and are tolerated; a pipeline without jobs only waits for them. */
  lemma LinesExact(policy: Policy, jobs: seq<Job>, line: Line)
    ensures line in Judge(policy, jobs).problems <==>
      || (line.Missing? && jobs != [] && line.name in policy.always && !IsPresent(policy, jobs, line.name))
      || (line.Of? && Newest(jobs, line.job) && Blocks(policy, line.job))
    ensures line in Judge(policy, jobs).waiting <==>
      (line.NoJobs? && jobs == []) || (line.Of? && Newest(jobs, line.job) && Unfinished(policy, line.job))
    ensures line in Judge(policy, jobs).notes <==>
      line.Of? && Newest(jobs, line.job) && Tolerated(policy, line.job)
  {
    hide LatestOf, ClassLines, MissingLines, Newest, NameOrder.Sorted, Present, IsPresent;
    hide Blocks, Unfinished, Tolerated, Classify;
    PresentMeaning(policy, jobs);
    MissingLinesExact(policy.always, Present(policy, LatestOf(jobs)), line);
    ClassMeaning(policy, jobs, Problem, line);
    ClassMeaning(policy, jobs, Waiting, line);
    ClassMeaning(policy, jobs, Noted, line);
    if line.Of? {
      ClassifyExact(policy, line.job);
    }
    if jobs == [] && line.Of? {
      NothingNewest(line.job);
    }
  }

  lemma NothingNewest(job: Job)
    ensures !Newest([], job)
  {}

  /** Lines about jobs in alphabetical order, one for each name. */
  ghost predicate InNameOrder(lines: seq<Line>) {
    && (forall i | 0 <= i < |lines| :: lines[i].Of?)
    && forall i, j | 0 <= i < j < |lines| ::
         NameOrder.Leq(lines[i].job.name, lines[j].job.name) && lines[i].job.name != lines[j].job.name
  }

  lemma {:induction false} ClassLinesInOrder(policy: Policy, latest: Latest, names: seq<string>, c: Class)
    requires forall n | n in names :: n in latest && latest[n].name == n
    requires forall i, j | 0 <= i < j < |names| :: NameOrder.Leq(names[i], names[j]) && names[i] != names[j]
    ensures InNameOrder(ClassLines(policy, latest, names, c))
    ensures forall line | line in ClassLines(policy, latest, names, c) :: line.Of? && line.job.name in names
  {
    hide Classify;
    if names != [] {
      var rest := ClassLines(policy, latest, names[1..], c);
      ClassLinesInOrder(policy, latest, names[1..], c);
      forall i | 0 <= i < |rest|
        ensures NameOrder.Leq(names[0], rest[i].job.name) && names[0] != rest[i].job.name
      {
        assert rest[i] in rest;
        var j :| 0 <= j < |names[1..]| && names[1..][j] == rest[i].job.name;
        assert names[j + 1] == rest[i].job.name;
      }
    }
  }

  /** The lists name each job once, in alphabetical order; before the jobs, problems name what is
      missing. */
  lemma LinesInOrder(policy: Policy, jobs: seq<Job>)
    requires jobs != []
    ensures var report := Judge(policy, jobs);
      && InNameOrder(report.waiting) && InNameOrder(report.notes)
      && exists m :: 0 <= m <= |report.problems| && InNameOrder(report.problems[m..])
           && forall i | 0 <= i < m :: report.problems[i].Missing?
  {
    hide Classify, LatestOf, NameOrder.Sorted, ClassLines, MissingLines;
    var latest := LatestOf(jobs);
    var names := NameOrder.Sorted(latest.Keys);
    LatestExact(jobs);
    NameOrder.SortedExact(latest.Keys);
    ClassLinesInOrder(policy, latest, names, Waiting);
    ClassLinesInOrder(policy, latest, names, Noted);
    ClassLinesInOrder(policy, latest, names, Problem);
    var missing := MissingLines(policy.always, Present(policy, latest));
    var problems := Judge(policy, jobs).problems;
    assert problems[|missing|..] == ClassLines(policy, latest, names, Problem);
    forall i | 0 <= i < |missing| ensures problems[i].Missing? {
      assert problems[i] == missing[i] && missing[i] in missing;
      MissingLinesExact(policy.always, Present(policy, latest), missing[i]);
    }
  }

  /** A pipeline is refused exactly if it has jobs and a required name is missing or a newest
      attempt blocks; it is waited for exactly if it has no jobs yet, or is not refused and a newest
      attempt is not finished; and it passes otherwise. */
  lemma VerdictExact(policy: Policy, jobs: seq<Job>)
    ensures var verdict := Judge(policy, jobs).verdict;
      var refused := jobs != [] && (!AllPresent(policy, jobs) || HasNewest(jobs, job => Blocks(policy, job)));
      var waits := jobs == [] || HasNewest(jobs, job => Unfinished(policy, job));
      && (verdict == Refuse <==> refused)
      && (verdict == Wait <==> !refused && waits)
      && (verdict == Pass <==> !refused && !waits)
  {
    hide LatestOf, ClassLines, MissingLines, Newest, NameOrder.Sorted, IsPresent;
    hide Blocks, Unfinished, Tolerated;
    if jobs != [] {
      var report := Judge(policy, jobs);
      forall line
        ensures line in report.problems <==>
          || (line.Missing? && line.name in policy.always && !IsPresent(policy, jobs, line.name))
          || (line.Of? && Newest(jobs, line.job) && Blocks(policy, line.job))
        ensures line in report.waiting <==> line.Of? && Newest(jobs, line.job) && Unfinished(policy, line.job)
      {
        LinesExact(policy, jobs, line);
      }
      ProblemsExact(policy, jobs, report.problems);
      WaitingExact(policy, jobs, report.waiting);
    }
  }

  lemma ProblemsExact(policy: Policy, jobs: seq<Job>, problems: seq<Line>)
    requires forall line :: line in problems <==>
      || (line.Missing? && line.name in policy.always && !IsPresent(policy, jobs, line.name))
      || (line.Of? && Newest(jobs, line.job) && Blocks(policy, line.job))
    ensures problems != [] <==> !AllPresent(policy, jobs) || HasNewest(jobs, job => Blocks(policy, job))
  {
    hide Newest, Blocks, IsPresent;
    if problems != [] {
      var line := problems[0];
      assert line in problems;
    }
    forall n | n in policy.always && !IsPresent(policy, jobs, n) ensures problems != [] {
      assert Missing(n) in problems;
    }
    forall job | Newest(jobs, job) && Blocks(policy, job) ensures problems != [] {
      assert Of(job) in problems;
    }
  }

  lemma WaitingExact(policy: Policy, jobs: seq<Job>, waiting: seq<Line>)
    requires forall line :: line in waiting <==> line.Of? && Newest(jobs, line.job) && Unfinished(policy, line.job)
    ensures waiting != [] <==> HasNewest(jobs, job => Unfinished(policy, job))
  {
    hide Newest, Unfinished;
    if waiting != [] {
      var line := waiting[0];
      assert line in waiting;
    }
    forall job | Newest(jobs, job) && Unfinished(policy, job) ensures waiting != [] {
      assert Of(job) in waiting;
    }
  }

  /** A job that a release may rest on: exempt, successful, or a tolerated allowed failure. */
  ghost predicate Acceptable(policy: Policy, job: Job) {
    || policy.base(job.name) in policy.exempt
    || job.status == Success
    || (job.status == Failed && job.allowFailure && policy.base(job.name) in policy.warn)
  }

  /** A pipeline passes exactly if it has jobs, every required name is among them, and the newest
      attempt of every job is acceptable. */
  lemma PassExact(policy: Policy, jobs: seq<Job>)
    ensures Judge(policy, jobs).verdict == Pass <==>
      jobs != [] && AllPresent(policy, jobs) && forall job | Newest(jobs, job) :: Acceptable(policy, job)
  {
    hide Judge, Newest, AllPresent;
    VerdictExact(policy, jobs);
    forall job ensures Acceptable(policy, job) <==> !Blocks(policy, job) && !Unfinished(policy, job) {}
  }

  ghost predicate DistinctIds(jobs: seq<Job>) {
    forall i, j | 0 <= i < j < |jobs| :: jobs[i].id != jobs[j].id
  }

  /** The whole report, line for line, does not depend on the order the API lists the jobs in. */
  lemma OrderIrrelevant(policy: Policy, a: seq<Job>, b: seq<Job>)
    requires multiset(a) == multiset(b) && DistinctIds(a) && DistinctIds(b)
    ensures Judge(policy, a) == Judge(policy, b)
  {
    SameJobs(a, b);
    SameJobs(b, a);
    LatestSubset(a, b);
    LatestSubset(b, a);
    assert LatestOf(a) == LatestOf(b);
    assert a == [] ==> |multiset(b)| == 0;
    assert b == [] ==> |multiset(a)| == 0;
  }

  lemma SameJobs(a: seq<Job>, b: seq<Job>)
    requires multiset(a) == multiset(b)
    ensures forall job | job in a :: job in b
  {
    forall job | job in a ensures job in b {
      assert job in multiset(a);
    }
  }

  lemma LatestSubset(a: seq<Job>, b: seq<Job>)
    requires forall job :: job in a <==> job in b
    requires DistinctIds(b)
    ensures forall n | n in LatestOf(a) :: n in LatestOf(b) && LatestOf(b)[n] == LatestOf(a)[n]
  {
    hide LatestOf;
    LatestExact(a);
    forall n | n in LatestOf(a) ensures n in LatestOf(b) && LatestOf(b)[n] == LatestOf(a)[n] {
      var job := LatestOf(a)[n];
      var i: nat :| NewestAt(a, i) && a[i] == job;
      assert a[i] in a && job in b;
      var j: nat :| j < |b| && b[j] == job;
      forall k: nat | k < |b| && b[k].name == job.name ensures b[k].id <= job.id {
        assert b[k] in a;
      }
      assert NewestAt(b, j);
      NewestIsLatest(b, job);
    }
  }
}

/** The polling loop of the release guard, against a server that may answer anything. */
module ReleaseGuard {
  import opened Common
  import opened JobVerdict

  /** An API answer, or a failure to get a usable one. A definitive failure is one that trying
      again cannot change. */
  datatype Reply<+T> = Data(value: T) | Fault(definitive: bool)

  datatype Source = Push | Web | OtherSource(name: string)

  datatype Pipeline = Pipeline(id: int, source: Source, sha: Option<string>)

  /** What the server answers during poll `t`, and the time elapsed when that poll begins. */
  datatype Server = Server(
    pipelines: nat -> Reply<seq<Pipeline>>,
    page: (nat, int, nat) -> Reply<seq<Job>>,
    elapsed: nat -> int)

  datatype Config = Config(policy: Policy, sha: string, timeout: int, notFound: int, poll: int, maxErrors: int)

  const PER_PAGE := 100
  const MAX_PAGES := 20

  // ----- the newest main pipeline

  /** A pipeline of `main`'s full job set at this commit. */
  predicate Candidate(p: Pipeline, sha: string) {
    (p.source.Push? || p.source.Web?) && (p.sha.None? || p.sha.value == sha)
  }

  /** A push or web pipeline, listed under this commit or under none. */
  ghost predicate OnMain(p: Pipeline, sha: string) {
    p.source in {Push, Web} && (p.sha.Some? ==> p.sha.value == sha)
  }

  function LatestMain(ps: seq<Pipeline>, sha: string): (r: Option<Pipeline>)
    ensures r.None? <==> forall p | p in ps :: !OnMain(p, sha)
    ensures r.Some? ==>
      r.value in ps && OnMain(r.value, sha) && forall p | p in ps && OnMain(p, sha) :: p.id <= r.value.id
  {
    if ps == [] then None
    else
      var best, p := LatestMain(ps[..|ps| - 1], sha), ps[|ps| - 1];
      assert ps == ps[..|ps| - 1] + [p] && p in ps;
      if Candidate(p, sha) && (best.None? || p.id > best.value.id) then Some(p) else best
  }

  // ----- the complete job list

  function PagesFrom(page: nat -> Reply<seq<Job>>, k: nat, got: seq<Job>): Reply<seq<Job>>
    decreases MAX_PAGES + 1 - k
  {
    if k > MAX_PAGES then Fault(false)
    else match page(k)
      case Fault(definitive) => Fault(definitive)
      case Data(jobs) => if |jobs| < PER_PAGE then Data(got + jobs) else PagesFrom(page, k + 1, got + jobs)
  }

  function AllJobs(page: nat -> Reply<seq<Job>>): Reply<seq<Job>> {
    PagesFrom(page, 1, [])
  }

  method FetchJobs(page: nat -> Reply<seq<Job>>) returns (reply: Reply<seq<Job>>)
    ensures reply == AllJobs(page)
  {
    var got: seq<Job> := [];
    for k := 1 to MAX_PAGES + 1
      invariant PagesFrom(page, k, got) == AllJobs(page)
    {
      var answer := page(k);
      if answer.Fault? {
        return answer;
      }
      got := got + answer.value;
      if |answer.value| < PER_PAGE {
        return Data(got);
      }
    }
    return Fault(false);
  }

  function Min(a: int, b: int): int { if a < b then a else b }

  /** The server pages the list `all` out in slices of a hundred. */
  ghost predicate PagesOut(page: nat -> Reply<seq<Job>>, all: seq<Job>) {
    forall k: nat | k >= 1 :: page(k) == Data(all[Min((k - 1) * 100, |all|)..Min(k * 100, |all|)])
  }

  /** Reading pages one by one yields the whole list, or refuses one of two thousand jobs or more;
      it never yields a part. */
  lemma PagingExact(page: nat -> Reply<seq<Job>>, all: seq<Job>)
    requires PagesOut(page, all)
    ensures AllJobs(page) == if |all| < 2000 then Data(all) else Fault(false)
  {
    PagingFrom(page, all, 1);
  }

  lemma {:induction false} PagingFrom(page: nat -> Reply<seq<Job>>, all: seq<Job>, k: nat)
    requires PagesOut(page, all) && 1 <= k <= 21 && (k - 1) * 100 <= |all|
    ensures PagesFrom(page, k, all[..(k - 1) * 100]) == if |all| < 2000 then Data(all) else Fault(false)
    decreases 21 - k
  {
    if k <= 20 {
      var lo, hi := (k - 1) * 100, Min(k * 100, |all|);
      assert page(k) == Data(all[lo..hi]);
      assert all[..lo] + all[lo..hi] == all[..hi];
      if hi - lo < 100 {
        assert all[..hi] == all;
      } else {
        PagingFrom(page, all, k + 1);
      }
    }
  }

  /** A page that makes the guard stop asking: it could not be read, or it is not full. */
  ghost predicate LastPage(answer: Reply<seq<Job>>) {
    answer.Fault? || |answer.value| < 100
  }

  /** Whatever the server answers: a page that cannot be read is the whole reply if only full pages
      came before it, and twenty full pages are a failure that may pass. */
  lemma PagingFaults(page: nat -> Reply<seq<Job>>, k: nat)
    requires 1 <= k <= 21 && forall j: nat | 1 <= j < k :: !LastPage(page(j))
    ensures k == 21 ==> AllJobs(page) == Fault(false)
    ensures k <= 20 && page(k).Fault? ==> AllJobs(page) == Fault(page(k).definitive)
    ensures k <= 20 && page(k).Data? && LastPage(page(k)) ==> AllJobs(page).Data?
  {
    FaultFrom(page, 1, k, []);
  }

  lemma {:induction false} FaultFrom(page: nat -> Reply<seq<Job>>, j: nat, k: nat, got: seq<Job>)
    requires 1 <= j <= k <= 21 && forall i: nat | j <= i < k :: !LastPage(page(i))
    ensures k == 21 ==> PagesFrom(page, j, got) == Fault(false)
    ensures k <= 20 && page(k).Fault? ==> PagesFrom(page, j, got) == Fault(page(k).definitive)
    ensures k <= 20 && page(k).Data? && LastPage(page(k)) ==> PagesFrom(page, j, got).Data?
    decreases k - j
  {
    if j < k {
      FaultFrom(page, j + 1, k, got + page(j).value);
    }
  }

  // ----- one poll

  datatype Outcome = ApiFault(definitive: bool) | NoPipeline | Judged(id: int, report: Report)

  function PagesOf(s: Server, t: nat, id: int): nat -> Reply<seq<Job>> {
    (k: nat) => s.page(t, id, k)
  }

  function PollAt(s: Server, cfg: Config, t: nat): Outcome {
    match s.pipelines(t)
    case Fault(definitive) => ApiFault(definitive)
    case Data(ps) =>
      match LatestMain(ps, cfg.sha)
      case None => NoPipeline
      case Some(p) =>
        match AllJobs(PagesOf(s, t, p.id))
        case Fault(definitive) => ApiFault(definitive)
        case Data(jobs) => Judged(p.id, Judge(cfg.policy, jobs))
  }

  method Poll(s: Server, cfg: Config, t: nat) returns (outcome: Outcome)
    ensures outcome == PollAt(s, cfg, t)
  {
    var listing := s.pipelines(t);
    if listing.Fault? {
      return ApiFault(listing.definitive);
    }
    var newest := LatestMain(listing.value, cfg.sha);
    if newest.None? {
      return NoPipeline;
    }
    var jobs := FetchJobs(PagesOf(s, t, newest.value.id));
    if jobs.Fault? {
      return ApiFault(jobs.definitive);
    }
    var report := Evaluate(cfg.policy, jobs.value);
    return Judged(newest.value.id, report);
  }

  // ----- the loop

  /** Consecutive API failures just before poll `t`. */
  ghost function ErrorsBefore(s: Server, cfg: Config, t: nat): nat {
    if t == 0 || !PollAt(s, cfg, t - 1).ApiFault? then 0 else 1 + ErrorsBefore(s, cfg, t - 1)
  }

  /** The exit code if the guard stops at poll `t`, given that it got there. */
  ghost function StopsAt(s: Server, cfg: Config, t: nat): Option<int> {
    var late := s.elapsed(t) >= cfg.timeout;
    match PollAt(s, cfg, t)
    case ApiFault(definitive) =>
      if definitive || ErrorsBefore(s, cfg, t) + 1 >= cfg.maxErrors || late then Some(1) else None
    case NoPipeline => if s.elapsed(t) >= cfg.notFound || late then Some(1) else None
    case Judged(_, report) =>
      if report.verdict.Pass? then Some(0) else if report.verdict.Refuse? || late then Some(1) else None
  }

  /** Every sleep moves the clock by at least the polling interval. */
  ghost predicate SleepsAdvance(s: Server, cfg: Config) {
    cfg.poll > 0 && s.elapsed(0) >= 0 && forall t: nat :: s.elapsed(t + 1) >= s.elapsed(t) + cfg.poll
  }

  /** The guard stops at the first poll that decides, with that poll's exit code, and within
      the timeout rounded up to whole polls, plus one. */
  method WaitForMain(s: Server, cfg: Config) returns (code: int, last: nat, seen: Option<int>)
    requires SleepsAdvance(s, cfg)
    ensures StopsAt(s, cfg, last) == Some(code)
    ensures forall t: nat | t < last :: StopsAt(s, cfg, t) == None
    ensures last > 0 ==> (last - 1) * cfg.poll < cfg.timeout
    ensures code == 0 ==> seen.Some? && PollAt(s, cfg, last).Judged? && PollAt(s, cfg, last).id == seen.value
  {
    hide PollAt, Judge, LatestMain, AllJobs;
    var errors := 0;
    seen := None;
    last := 0;
    while true
      invariant errors == ErrorsBefore(s, cfg, last)
      invariant forall t: nat | t < last :: StopsAt(s, cfg, t) == None
      invariant s.elapsed(last) >= last * cfg.poll
      invariant last > 0 ==> s.elapsed(last - 1) < cfg.timeout && s.elapsed(last - 1) >= (last - 1) * cfg.poll
      decreases cfg.timeout - s.elapsed(last)
    {
      var elapsed := s.elapsed(last);
      var outcome := Poll(s, cfg, last);
      match outcome {
        case ApiFault(definitive) =>
          errors := errors + 1;
          if definitive || errors >= cfg.maxErrors {
            return 1, last, seen;
          }
        case NoPipeline =>
          errors := 0;
          if elapsed >= cfg.notFound {
            return 1, last, seen;
          }
        case Judged(id, report) =>
          errors := 0;
          seen := Some(id);
          if report.verdict.Pass? {
            return 0, last, seen;
          }
          if report.verdict.Refuse? {
            return 1, last, seen;
          }
      }
      if elapsed >= cfg.timeout {
        return 1, last, seen;
      }
      assert s.elapsed(last + 1) >= elapsed + cfg.poll;
      assert (last + 1) * cfg.poll == last * cfg.poll + cfg.poll;
      last := last + 1;
    }
  }

  // ----- when it stops, from the server's answers

  /** The listing or a page of the newest main pipeline's jobs could not be read. */
  ghost predicate Unread(s: Server, cfg: Config, t: nat, definitive: bool) {
    match s.pipelines(t)
    case Fault(d) => d == definitive
    case Data(ps) =>
      var p := LatestMain(ps, cfg.sha);
      p.Some? && AllJobs(PagesOf(s, t, p.value.id)) == Fault(definitive)
  }

  /** The listing was read and has no main pipeline at the commit. */
  ghost predicate NoneYet(s: Server, cfg: Config, t: nat) {
    s.pipelines(t).Data? && forall p | p in s.pipelines(t).value :: !OnMain(p, cfg.sha)
  }

  /** The newest main pipeline's jobs were all read, with this verdict on them. */
  ghost predicate Decided(s: Server, cfg: Config, t: nat, verdict: Verdict) {
    match s.pipelines(t)
    case Fault(_) => false
    case Data(ps) =>
      var p := LatestMain(ps, cfg.sha);
      p.Some? && AllJobs(PagesOf(s, t, p.value.id)).Data?
      && Judge(cfg.policy, AllJobs(PagesOf(s, t, p.value.id)).value).verdict == verdict
  }

  ghost predicate AnyUnread(s: Server, cfg: Config, t: nat) {
    Unread(s, cfg, t, true) || Unread(s, cfg, t, false)
  }

  /** The last `maxErrors` polls up to this one could not be read. */
  ghost predicate TooManyErrors(s: Server, cfg: Config, t: nat) {
    t + 1 >= cfg.maxErrors && forall u: nat | t - cfg.maxErrors < u <= t :: AnyUnread(s, cfg, u)
  }

  lemma PollExact(s: Server, cfg: Config, t: nat)
    ensures forall d :: PollAt(s, cfg, t) == ApiFault(d) <==> Unread(s, cfg, t, d)
    ensures PollAt(s, cfg, t) == NoPipeline <==> NoneYet(s, cfg, t)
    ensures forall v :: (PollAt(s, cfg, t).Judged? && PollAt(s, cfg, t).report.verdict == v) <==> Decided(s, cfg, t, v)
    ensures PollAt(s, cfg, t).ApiFault? <==> AnyUnread(s, cfg, t)
  {
    hide Judge, AllJobs, OnMain;
  }

  lemma {:induction false} ErrorsExact(s: Server, cfg: Config, t: nat, n: nat)
    ensures ErrorsBefore(s, cfg, t) >= n <==> n <= t && forall u: nat | t - n <= u < t :: AnyUnread(s, cfg, u)
    decreases t
  {
    hide PollAt, AnyUnread;
    if t > 0 && n > 0 {
      PollExact(s, cfg, t - 1);
      ErrorsExact(s, cfg, t - 1, n - 1);
    }
  }

  /** The guard stops at a poll it comes to with 0 exactly if that poll decides that the pipeline
      passes, and with 1 exactly if it is refused, a failure is definitive or one too many in a row,
      no pipeline has shown up in time, or the time is up. */
  lemma StopsExact(s: Server, cfg: Config, t: nat)
    ensures StopsAt(s, cfg, t) == Some(0) <==> Decided(s, cfg, t, Pass)
    ensures StopsAt(s, cfg, t) == Some(1) <==>
      || Decided(s, cfg, t, Refuse)
      || Unread(s, cfg, t, true)
      || (AnyUnread(s, cfg, t) && TooManyErrors(s, cfg, t))
      || (NoneYet(s, cfg, t) && s.elapsed(t) >= cfg.notFound)
      || (s.elapsed(t) >= cfg.timeout && !Decided(s, cfg, t, Pass))
  {
    hide PollAt, AnyUnread, Unread, NoneYet, Decided;
    PollExact(s, cfg, t);
    if cfg.maxErrors >= 1 {
      ErrorsExact(s, cfg, t, cfg.maxErrors - 1);
    }
  }

  /** A pass rests on answers: in the very poll that returns it the listing was read, the newest
      main pipeline at the commit was there and its whole job list was read; every required job
      is in that list and the newest attempt of each of its jobs is acceptable. */
  lemma PassIsEarned(s: Server, cfg: Config, t: nat)
    requires StopsAt(s, cfg, t) == Some(0)
    ensures s.pipelines(t).Data? && LatestMain(s.pipelines(t).value, cfg.sha).Some?
    ensures var reply := AllJobs(PagesOf(s, t, LatestMain(s.pipelines(t).value, cfg.sha).value.id));
      && reply.Data? && reply.value != [] && AllPresent(cfg.policy, reply.value)
      && forall job | Newest(reply.value, job) :: Acceptable(cfg.policy, job)
  {
    PassExact(cfg.policy, AllJobs(PagesOf(s, t, LatestMain(s.pipelines(t).value, cfg.sha).value.id)).value);
  }

  /** A guard that is still polling has never had `maxErrors` failures in a row. */
  lemma {:induction false} ErrorsStayBelowLimit(s: Server, cfg: Config, t: nat)
    requires cfg.maxErrors >= 1
    requires forall u: nat | u < t :: StopsAt(s, cfg, u) == None
    ensures ErrorsBefore(s, cfg, t) < cfg.maxErrors
    ensures forall u: nat | u < t && PollAt(s, cfg, u).ApiFault? :: !PollAt(s, cfg, u).definitive
  {
    if t > 0 {
      ErrorsStayBelowLimit(s, cfg, t - 1);
      assert StopsAt(s, cfg, t - 1) == None;
    }
  }
}
