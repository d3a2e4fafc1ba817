/** The history of cost records on a merge request: which note `scripts/cost-table.py` may
    rewrite, which number a new record gets, and what its running total adds up.  Times are
    abstract instants; the fixed-format texts sort the same way. */
module CostLedger {
  import opened Common
  import CostRecord

  type Time = int

  type Family = CostRecord.Family

  datatype Column = TokensOf(f: Family) | CostOf(f: Family) | AllTokens | AllCost

  predicate IsCost(c: Column) { c.CostOf? || c.AllCost? }

  /** A record's figures: numbers of tokens, and amounts in dollars with any number of decimals. */
  type Totals = map<Column, Option<real>>

  /** A readable record. Record 1 states no start. */
  datatype Rec = Rec(k: nat, start: Option<Time>, end: Option<Time>, total: Totals)

  /** One of the user's own notes with the record heading: its number and its content, if they
      could be read. */
  datatype Note = Note(id: int, k: Option<nat>, rec: Option<Rec>)

  const MAX_NUMBER := 9999

  /** What the strict parser guarantees of a note. */
  predicate NoteOk(n: Note) {
    && (n.k.Some? ==> n.k.value <= MAX_NUMBER)
    && (n.rec.Some? ==>
          && n.k == Some(n.rec.value.k) && n.rec.value.k >= 1
          && (n.rec.value.k > 1 ==>
                && n.rec.value.start.Some? && n.rec.value.end.Some?
                && n.rec.value.start.value <= n.rec.value.end.value))
  }

  /** Notes oldest first; the server gives every note a new id. */
  ghost predicate NotesOk(own: seq<Note>) {
    && (forall i | 0 <= i < |own| :: NoteOk(own[i]))
    && (forall i, j | 0 <= i < j < |own| :: own[i].id < own[j].id)
  }

  datatype Reason = Unparsed | NotConsecutive(k: nat) | NoEnd(k: nat) | Overlap(k: nat) | WindowOverlap(k: nat)

  datatype Prior = Prior(records: seq<Rec>, reason: Option<Reason>, gaps: seq<(Time, Time)>)

  datatype Plan = Refused | Planned(target: Option<int>, k: nat, prior: Prior)

  function NumberOf(n: Note): nat {
    if n.k.Some? then n.k.value else 0
  }

  function Top(own: seq<Note>): (t: nat)
    ensures forall i | 0 <= i < |own| :: NumberOf(own[i]) <= t
    ensures t == 0 || exists i :: 0 <= i < |own| && NumberOf(own[i]) == t
  {
    if own == [] then 0
    else
      var init, last := own[..|own| - 1], own[|own| - 1];
      assert forall i | 0 <= i < |init| :: own[i] == init[i];
      Max(Top(init), NumberOf(last))
  }

  /** The only note with the highest number, or none if there are several. */
  function Latest(own: seq<Note>): Option<Note> {
    var tops := Filter(own, (n: Note) => NumberOf(n) == Top(own));
    if |tops| == 1 then Some(tops[0]) else None
  }

  predicate HasWindow(n: Note, since: Time, until: Time) {
    n.rec.Some? && NumberOf(n) > 1 && n.rec.value.start == Some(since) && n.rec.value.end == Some(until)
  }

  function Without(own: seq<Note>, target: Option<int>): seq<Note> {
    if target.None? then own else Filter(own, (n: Note) => n.id != target.value)
  }

  // ----- the earlier records

  function Numbers(notes: seq<Note>): seq<nat> {
    if notes == [] then [] else (if notes[0].k.Some? then [notes[0].k.value] else []) + Numbers(notes[1..])
  }

  function Range(lo: nat, hi: nat): seq<nat>
    decreases hi - lo
  {
    if lo >= hi then [] else [lo] + Range(lo + 1, hi)
  }

  /** Are the numbers, sorted, exactly 1..k-1? */
  predicate Consecutive(notes: seq<Note>, k: nat) {
    multiset(Numbers(notes)) == multiset(Range(1, k))
  }

  predicate AllReadable(notes: seq<Note>) {
    forall i | 0 <= i < |notes| :: notes[i].k.Some? && notes[i].rec.Some?
  }

  function FindNumber(notes: seq<Note>, j: nat): Option<Rec> {
    if notes == [] then None
    else if notes[0].rec.Some? && notes[0].rec.value.k == j then notes[0].rec
    else FindNumber(notes[1..], j)
  }

  /** The records numbered `lo..hi-1` in order of their numbers. */
  function InOrder(notes: seq<Note>, lo: nat, hi: nat): seq<Rec>
    decreases hi - lo
  {
    if lo >= hi then []
    else (if FindNumber(notes, lo).Some? then [FindNumber(notes, lo).value] else []) + InOrder(notes, lo + 1, hi)
  }

  /** What is wrong between two neighbours, if anything. */
  function PairReason(a: Rec, b: Rec): Option<Reason> {
    if a.end.None? then Some(NoEnd(a.k))
    else if b.start.Some? && b.start.value < a.end.value then Some(Overlap(b.k))
    else None
  }

  function FirstReason(recs: seq<Rec>): Option<Reason> {
    if |recs| < 2 then None
    else if PairReason(recs[0], recs[1]).Some? then PairReason(recs[0], recs[1])
    else FirstReason(recs[1..])
  }

  function PairGap(a: Rec, b: Rec): seq<(Time, Time)> {
    if a.end.Some? && b.start.Some? && b.start.value > a.end.value then [(a.end.value, b.start.value)] else []
  }

  function PairGaps(recs: seq<Rec>): seq<(Time, Time)> {
    if |recs| < 2 then [] else PairGap(recs[0], recs[1]) + PairGaps(recs[1..])
  }

  lemma PairsFrom(recs: seq<Rec>, i: nat)
    requires i + 1 < |recs|
    ensures PairGaps(recs[i..]) == PairGap(recs[i], recs[i + 1]) + PairGaps(recs[i + 1..])
    ensures var bad := PairReason(recs[i], recs[i + 1]);
      FirstReason(recs[i..]) == if bad.Some? then bad else FirstReason(recs[i + 1..])
  {
    assert recs[i..][1..] == recs[i + 1..];
  }

  method ScanPairs(recs: seq<Rec>) returns (bad: Option<Reason>, gaps: seq<(Time, Time)>)
    ensures bad == FirstReason(recs)
    ensures bad.None? ==> gaps == PairGaps(recs)
  {
    bad, gaps := None, [];
    var i := 0;
    while i + 1 < |recs|
      invariant 0 <= i <= |recs|
      invariant FirstReason(recs[i..]) == FirstReason(recs)
      invariant gaps + PairGaps(recs[i..]) == PairGaps(recs)
    {
      var a, b := recs[i], recs[i + 1];
      PairsFrom(recs, i);
      ghost var before, rest := gaps, PairGaps(recs[i + 1..]);
      assert before + (PairGap(a, b) + rest) == (before + PairGap(a, b)) + rest;
      if a.end.None? {
        return Some(NoEnd(a.k)), gaps;
      } else if b.start.Some? && b.start.value < a.end.value {
        return Some(Overlap(b.k)), gaps;
      } else if b.start.Some? && b.start.value > a.end.value {
        gaps := gaps + [(a.end.value, b.start.value)];
      }
      i := i + 1;
    }
  }

  function PriorOf(earlier: seq<Note>, k: nat, since: Time): Prior {
    if !AllReadable(earlier) then Prior([], Some(Unparsed), [])
    else if !Consecutive(earlier, k) then Prior([], Some(NotConsecutive(k)), [])
    else
      var recs := InOrder(earlier, 1, k);
      if FirstReason(recs).Some? then Prior([], FirstReason(recs), [])
      else if recs == [] then Prior([], None, [])
      else
        var prev := recs[|recs| - 1];
        if prev.end.None? then Prior([], Some(NoEnd(prev.k)), [])
        else if since < prev.end.value then Prior([], Some(WindowOverlap(prev.k)), [])
        else Prior(recs, None, PairGaps(recs) + if since > prev.end.value then [(prev.end.value, since)] else [])
  }

  function PlanFor(own: seq<Note>, since: Time, until: Time): Plan {
    var latest := Latest(own);
    if latest.Some? && HasWindow(latest.value, since, until) then
      var (t, k) := (latest.value.id, NumberOf(latest.value));
      Planned(Some(t), k, PriorOf(Without(own, Some(t)), k, since))
    else if exists i | 0 <= i < |own| :: HasWindow(own[i], since, until) then Refused
    else
      var k := Max(Max(Top(own), |own|) + 1, 2);
      Planned(None, k, PriorOf(own, k, since))
  }

  method ComputePrior(earlier: seq<Note>, k: nat, since: Time) returns (prior: Prior)
    ensures prior == PriorOf(earlier, k, since)
  {
    hide Consecutive, FirstReason, PairGaps;
    if !AllReadable(earlier) {
      return Prior([], Some(Unparsed), []);
    }
    if !Consecutive(earlier, k) {
      return Prior([], Some(NotConsecutive(k)), []);
    }
    var recs := InOrder(earlier, 1, k);
    var bad, gaps := ScanPairs(recs);
    if bad.Some? {
      return Prior([], bad, []);
    }
    if recs == [] {
      return Prior([], None, []);
    }
    var prev := recs[|recs| - 1];
    if prev.end.None? {
      return Prior([], Some(NoEnd(prev.k)), []);
    }
    if since < prev.end.value {
      return Prior([], Some(WindowOverlap(prev.k)), []);
    }
    if since > prev.end.value {
      gaps := gaps + [(prev.end.value, since)];
    }
    assert gaps + [] == gaps;
    return Prior(recs, None, gaps);
  }

  method PlanFollowup(own: seq<Note>, since: Time, until: Time) returns (plan: Plan)
    ensures plan == PlanFor(own, since, until)
  {
    hide PriorOf, Without, Top;
    var latest := Latest(own);
    var target: Option<int>, k := None, 0;
    if latest.Some? && HasWindow(latest.value, since, until) {
      target, k := Some(latest.value.id), NumberOf(latest.value);
    } else if exists i | 0 <= i < |own| :: HasWindow(own[i], since, until) {
      return Refused;
    } else {
      k := Max(Max(Top(own), |own|) + 1, 2);
      assert Without(own, None) == own by { KeepAll(own); }
    }
    var prior := ComputePrior(Without(own, target), k, since);
    return Planned(target, k, prior);
  }

  lemma KeepAll(own: seq<Note>)
    ensures Without(own, None) == own
  {
  }

  // ----- record 1

  datatype Upsert = UpsertRefused | Post | Put(id: int)

  function UpsertFor(own: seq<Note>): Upsert {
    if exists i | 0 <= i < |own| :: own[i].k.None? || own[i].k.value > 1 then UpsertRefused
    else if |own| > 1 || (own != [] && own[0].rec.None?) then UpsertRefused
    else if own != [] then Put(own[0].id) else Post
  }

  // ----- which note may be rewritten, and which number is next

  lemma {:induction false} FilterOne(own: seq<Note>, keep: Note -> bool)
    ensures |Filter(own, keep)| == 1 ==> Filter(own, keep)[0] in own && keep(Filter(own, keep)[0])
    ensures |Filter(own, keep)| == 1 ==>
      forall i, j | 0 <= i < |own| && 0 <= j < |own| && keep(own[i]) && keep(own[j]) :: i == j
    ensures |Filter(own, keep)| == 0 ==> forall i | 0 <= i < |own| :: !keep(own[i])
  {
    if own != [] {
      FilterOne(own[1..], keep);
      assert own == [own[0]] + own[1..];
      forall i, j | 0 <= i < |own| && 0 <= j < |own| && keep(own[i]) && keep(own[j]) && |Filter(own, keep)| == 1
        ensures i == j
      {
        if i > 0 { assert own[1..][i - 1] == own[i]; }
        if j > 0 { assert own[1..][j - 1] == own[j]; }
      }
    }
  }

  /** `own[i]` alone has the highest number. */
  ghost predicate UniqueTop(own: seq<Note>, i: nat) {
    i < |own| && own[i].k.Some? && forall j | 0 <= j < |own| && j != i :: NumberOf(own[j]) < own[i].k.value
  }

  /** Only the unique highest-numbered own note can ever be rewritten, and only for its own window. */
  lemma RewritesOnlyLatest(own: seq<Note>, since: Time, until: Time) returns (i: nat)
    requires PlanFor(own, since, until).Planned? && PlanFor(own, since, until).target.Some?
    ensures UniqueTop(own, i) && own[i].id == PlanFor(own, since, until).target.value
    ensures HasWindow(own[i], since, until) && own[i].k == Some(PlanFor(own, since, until).k) && own[i].k.value > 1
  {
    var keep := (n: Note) => NumberOf(n) == Top(own);
    FilterOne(own, keep);
    var n := Latest(own).value;
    i :| 0 <= i < |own| && own[i] == n;
    forall j | 0 <= j < |own| && j != i ensures NumberOf(own[j]) < n.k.value {
      assert !keep(own[j]);
    }
  }

  /** A newly posted follow-up gets a number above every existing one. */
  lemma NewNumberIsHighest(own: seq<Note>, since: Time, until: Time)
    requires PlanFor(own, since, until).Planned? && PlanFor(own, since, until).target.None?
    ensures forall i | 0 <= i < |own| :: NumberOf(own[i]) < PlanFor(own, since, until).k
    ensures PlanFor(own, since, until).k >= 2 && PlanFor(own, since, until).k > |own|
  {
  }

  /** Record 1 is rewritten only while it is the only record and was read back. */
  lemma UpsertRewritesOnlyRecord(own: seq<Note>)
    requires UpsertFor(own).Put? && NotesOk(own)
    ensures |own| == 1 && own[0].id == UpsertFor(own).id && own[0].k == Some(1) && own[0].rec.Some?
  {
  }

  // ----- runs

  /** What a posted body reads back as: its number while that has four digits, and its content
      unless a figure is out of the parser's bounds. */
  ghost predicate ReadsBack(n: Note, k: nat, start: Option<Time>, end: Option<Time>) {
    && NoteOk(n)
    && n.k == (if k <= MAX_NUMBER then Some(k) else None)
    && (n.rec.Some? ==> n.rec.value.start == start && n.rec.value.end == end)
  }

  ghost predicate Rewritten(s: seq<Note>, s': seq<Note>, id: int) {
    && |s'| == |s|
    && forall i | 0 <= i < |s| :: s'[i].id == s[i].id && (s[i].id != id ==> s'[i] == s[i])
  }

  ghost predicate Appended(s: seq<Note>, s': seq<Note>) {
    |s'| == |s| + 1 && s'[..|s|] == s && forall i | 0 <= i < |s| :: s[i].id < s'[|s|].id
  }

  ghost predicate FollowupStep(s: seq<Note>, s': seq<Note>, since: Time, until: Time) {
    var plan := PlanFor(s, since, until);
    match plan
    case Refused => s' == s
    case Planned(Some(t), k, _) =>
      Rewritten(s, s', t) && forall i | 0 <= i < |s| && s[i].id == t :: ReadsBack(s'[i], k, Some(since), Some(until))
    case Planned(None, k, _) => Appended(s, s') && ReadsBack(s'[|s|], k, Some(since), Some(until))
  }

  ghost predicate UpsertStep(s: seq<Note>, s': seq<Note>, end: Option<Time>) {
    match UpsertFor(s)
    case UpsertRefused => s' == s
    case Put(t) => Rewritten(s, s', t) && forall i | 0 <= i < |s| && s[i].id == t :: ReadsBack(s'[i], 1, None, end)
    case Post => Appended(s, s') && ReadsBack(s'[|s|], 1, None, end)
  }

  /** The user may also write any note by hand. */
  ghost predicate ByHandStep(s: seq<Note>, s': seq<Note>) {
    Appended(s, s') && NoteOk(s'[|s|])
  }

  ghost predicate Step(s: seq<Note>, s': seq<Note>) {
    || (exists since: Time, until: Time :: since <= until && FollowupStep(s, s', since, until))
    || (exists end :: UpsertStep(s, s', end))
    || ByHandStep(s, s')
    || s' == s
  }

  ghost predicate Run(states: seq<seq<Note>>) {
    && states != [] && NotesOk(states[0])
    && forall i | 0 <= i < |states| - 1 :: Step(states[i], states[i + 1])
  }

  /** A note that has no number, or that a higher-numbered note has followed. */
  ghost predicate Superseded(s: seq<Note>, i: nat) {
    i < |s| && (s[i].k.None? || exists j | 0 <= j < |s| :: NumberOf(s[j]) > s[i].k.value)
  }

  lemma RewriteKeeps(s: seq<Note>, s': seq<Note>, top: nat, k: nat, start: Option<Time>, end: Option<Time>)
    requires NotesOk(s) && UniqueTop(s, top) && s[top].k == Some(k) && Rewritten(s, s', s[top].id)
      && ReadsBack(s'[top], k, start, end)
    ensures NotesOk(s')
    ensures forall i: nat | Superseded(s, i) :: i < |s'| && s'[i] == s[i] && Superseded(s', i)
  {
    assert s'[top].k == s[top].k;
    forall i | 0 <= i < |s'| ensures NoteOk(s'[i]) {
      if i != top {
        assert s[i].id != s[top].id;
      }
    }
    forall i: nat | Superseded(s, i) ensures i < |s'| && s'[i] == s[i] && Superseded(s', i) {
      assert i != top;
      assert s[i].id != s[top].id;
      if s[i].k.Some? {
        var j :| 0 <= j < |s| && NumberOf(s[j]) > s[i].k.value;
        assert NumberOf(s'[top]) >= NumberOf(s[j]);
      }
    }
  }

  lemma AppendKeeps(s: seq<Note>, s': seq<Note>)
    requires NotesOk(s) && Appended(s, s') && NoteOk(s'[|s|])
    ensures NotesOk(s')
    ensures forall i: nat | Superseded(s, i) :: i < |s'| && s'[i] == s[i] && Superseded(s', i)
  {
    assert forall i | 0 <= i < |s| :: s'[i] == s'[..|s|][i];
    forall i: nat | Superseded(s, i) ensures Superseded(s', i) {
      if s[i].k.Some? {
        var j :| 0 <= j < |s| && NumberOf(s[j]) > s[i].k.value;
        assert NumberOf(s'[j]) > s'[i].k.value;
      }
    }
  }

  lemma StepKeeps(s: seq<Note>, s': seq<Note>)
    requires NotesOk(s) && Step(s, s')
    ensures NotesOk(s')
    ensures forall i: nat | Superseded(s, i) :: i < |s'| && s'[i] == s[i] && Superseded(s', i)
  {
    if since, until :| since <= until && FollowupStep(s, s', since, until) {
      var plan := PlanFor(s, since, until);
      if plan.Planned? && plan.target.Some? {
        var top := RewritesOnlyLatest(s, since, until);
        RewriteKeeps(s, s', top, plan.k, Some(since), Some(until));
      } else if plan.Planned? {
        AppendKeeps(s, s');
      }
    } else if end :| UpsertStep(s, s', end) {
      if UpsertFor(s).Put? {
        UpsertRewritesOnlyRecord(s);
        RewriteKeeps(s, s', 0, 1, None, end);
      } else if UpsertFor(s).Post? {
        AppendKeeps(s, s');
      }
    } else if ByHandStep(s, s') {
      AppendKeeps(s, s');
    }
  }

  /** Over every run, a superseded record is never edited again: it stays where it is, as it is. */
  lemma {:induction false} SupersededForever(states: seq<seq<Note>>, m: nat, n: nat, i: nat)
    requires Run(states) && m <= n < |states| && Superseded(states[m], i)
    ensures i < |states[n]| && states[n][i] == states[m][i] && Superseded(states[n], i)
    decreases n
  {
    hide Step, NotesOk;
    if m < n {
      SupersededForever(states, m, n - 1, i);
      RunOk(states, n - 1);
      StepKeeps(states[n - 1], states[n]);
    }
  }

  lemma {:induction false} RunOk(states: seq<seq<Note>>, n: nat)
    requires Run(states) && n < |states|
    ensures NotesOk(states[n])
  {
    hide Step, NotesOk, Superseded;
    if n > 0 {
      RunOk(states, n - 1);
      StepKeeps(states[n - 1], states[n]);
    }
  }

  // ----- repeating a follow-up

  lemma {:induction false} OnlyOneKept(own: seq<Note>, keep: Note -> bool, i: nat)
    requires i < |own| && keep(own[i]) && forall j | 0 <= j < |own| && j != i :: !keep(own[j])
    ensures Filter(own, keep) == [own[i]]
  {
    if i == 0 {
      NoneKept(own[1..], keep);
    } else {
      OnlyOneKept(own[1..], keep, i - 1);
    }
  }

  lemma {:induction false} NoneKept(own: seq<Note>, keep: Note -> bool)
    requires forall j | 0 <= j < |own| :: !keep(own[j])
    ensures Filter(own, keep) == []
  {
    if own != [] {
      NoneKept(own[1..], keep);
    }
  }

  lemma {:induction false} AllKept(own: seq<Note>, keep: Note -> bool)
    requires forall j | 0 <= j < |own| :: keep(own[j])
    ensures Filter(own, keep) == own
  {
    if own != [] {
      AllKept(own[1..], keep);
      assert own == [own[0]] + own[1..];
    }
  }

  lemma LatestIs(own: seq<Note>, i: nat)
    requires UniqueTop(own, i)
    ensures Latest(own) == Some(own[i])
  {
    assert Top(own) == NumberOf(own[i]);
    OnlyOneKept(own, (n: Note) => NumberOf(n) == Top(own), i);
  }

  /** The notes but one, whatever that one now says. */
  lemma {:induction false} WithoutSame(a: seq<Note>, b: seq<Note>, id: int)
    requires Rewritten(a, b, id)
    ensures Without(a, Some(id)) == Without(b, Some(id))
  {
    var keep := (n: Note) => n.id != id;
    SameFilter(a, b, keep);
    assert Without(a, Some(id)) == Filter(a, keep) && Without(b, Some(id)) == Filter(b, keep);
  }

  lemma {:induction false} SameFilter(a: seq<Note>, b: seq<Note>, keep: Note -> bool)
    requires |a| == |b| && forall i | 0 <= i < |a| :: (keep(a[i]) <==> keep(b[i])) && (keep(a[i]) ==> a[i] == b[i])
    ensures Filter(a, keep) == Filter(b, keep)
  {
    if a != [] {
      SameFilter(a[1..], b[1..], keep);
    }
  }

  lemma WithoutAppended(s: seq<Note>, s': seq<Note>)
    requires Appended(s, s')
    ensures Without(s', Some(s'[|s|].id)) == s
  {
    var keep := (n: Note) => n.id != s'[|s|].id;
    assert s' == s + [s'[|s|]];
    FilterConcat(s, [s'[|s|]], keep);
    AllKept(s, keep);
    NoneKept([s'[|s|]], keep);
  }

  /** Repeating a follow-up that went through targets the very note it wrote, with the same number
      and the same prior, and so renders the same body. */
  lemma FollowupIdempotent(s: seq<Note>, s': seq<Note>, since: Time, until: Time)
    requires NotesOk(s) && since <= until && FollowupStep(s, s', since, until)
    requires PlanFor(s, since, until).Planned?
    requires PlanFor(s, since, until).k <= MAX_NUMBER
    requires var plan := PlanFor(s, since, until);
      plan.target.None? ==> s'[|s|].rec.Some?
    requires var plan := PlanFor(s, since, until);
      plan.target.Some? ==> forall i | 0 <= i < |s'| && s'[i].id == plan.target.value :: s'[i].rec.Some?
    ensures var plan, again := PlanFor(s, since, until), PlanFor(s', since, until);
      && again.Planned? && again.target.Some? && again.k == plan.k && again.prior == plan.prior
      && (plan.target.Some? ==> again.target == plan.target)
      && (plan.target.None? ==> again.target == Some(s'[|s|].id))
  {
    var plan := PlanFor(s, since, until);
    hide PriorOf, Latest, Filter;
    if plan.target.Some? {
      var i := RewritesOnlyLatest(s, since, until);
      assert s'[i].id == plan.target.value;
      assert forall j | 0 <= j < |s| && j != i :: s[j].id != s[i].id;
      LatestIs(s', i);
      WithoutSame(s, s', plan.target.value);
    } else {
      assert s'[|s|].k == Some(plan.k);
      assert forall j | 0 <= j < |s| :: s'[j] == s'[..|s|][j];
      LatestIs(s', |s|);
      WithoutAppended(s, s');
    }
  }

  // ----- windows, gaps and the running total

  /** The instants from `e` on that the windows of `rest` cover. */
  predicate Covers(r: Rec, t: Time) {
    r.start.Some? && r.end.Some? && r.start.value <= t < r.end.value
  }

  predicate InGap(gaps: seq<(Time, Time)>, t: Time) {
    exists i | 0 <= i < |gaps| :: gaps[i].0 <= t < gaps[i].1
  }

  ghost predicate RecOk(r: Rec) {
    r.k > 1 ==> r.start.Some? && r.end.Some? && r.start.value <= r.end.value
  }

  /** Readable records numbered one after the other, each neighbouring pair in order. */
  ghost predicate Chain(recs: seq<Rec>) {
    && recs != [] && FirstReason(recs).None? && recs[|recs| - 1].end.Some?
    && (forall i | 0 <= i < |recs| :: RecOk(recs[i]))
    && (forall i | 1 <= i < |recs| :: recs[i].k > 1)
  }

  lemma {:induction false} ChainOrder(recs: seq<Rec>)
    requires Chain(recs)
    ensures recs[0].end.Some?
    ensures forall i, j | 0 <= i < j < |recs| :: recs[i].end.Some? && recs[i].end.value <= recs[j].start.value
    ensures forall i | 0 <= i < |recs| :: recs[i].end.Some? && recs[i].end.value <= recs[|recs| - 1].end.value
  {
    if |recs| > 1 {
      var rest := recs[1..];
      assert PairReason(recs[0], recs[1]).None?;
      ChainOrder(rest);
      forall i, j | 0 <= i < j < |recs| ensures recs[i].end.Some? && recs[i].end.value <= recs[j].start.value {
        if i > 0 {
          assert rest[i - 1] == recs[i] && rest[j - 1] == recs[j];
        } else if j > 1 {
          assert rest[0] == recs[1] && rest[j - 1] == recs[j];
        }
      }
      forall i | 0 <= i < |recs| ensures recs[i].end.Some? && recs[i].end.value <= recs[|recs| - 1].end.value {
        if i > 0 {
          assert rest[i - 1] == recs[i];
        } else {
          assert rest[0] == recs[1] && rest[|rest| - 1] == recs[|recs| - 1];
        }
      }
    }
  }

  lemma GapConcat(a: seq<(Time, Time)>, b: seq<(Time, Time)>, t: Time)
    ensures InGap(a + b, t) <==> InGap(a, t) || InGap(b, t)
  {
    if InGap(a, t) {
      var i :| 0 <= i < |a| && a[i].0 <= t < a[i].1;
      assert (a + b)[i] == a[i];
    }
    if InGap(b, t) {
      var i :| 0 <= i < |b| && b[i].0 <= t < b[i].1;
      assert (a + b)[|a| + i] == b[i];
    }
  }

  /** Between the end of the first record and the end of the last, an instant is in a stated gap
      exactly when no record's window covers it. */
  lemma {:induction false} GapsTile(recs: seq<Rec>, t: Time)
    requires Chain(recs) && recs[0].end.Some? && recs[0].end.value <= t < recs[|recs| - 1].end.value
    ensures InGap(PairGaps(recs), t) <==> !exists i :: 1 <= i < |recs| && Covers(recs[i], t)
  {
    ChainOrder(recs);
    if |recs| > 1 {
      var a, b, rest := recs[0], recs[1], recs[1..];
      GapConcat(PairGap(a, b), PairGaps(rest), t);
      assert InGap(PairGap(a, b), t) <==> t < b.start.value by {
        if t < b.start.value {
          assert PairGap(a, b)[0] == (a.end.value, b.start.value);
        }
      }
      assert forall i | 1 <= i < |rest| :: rest[i] == recs[i + 1];
      assert forall i | 2 <= i < |recs| :: recs[i] == rest[i - 1];
      if t >= b.end.value {
        GapsTile(rest, t);
        assert !Covers(b, t);
      } else {
        GapsAfter(rest, t);
        assert forall i | 2 <= i < |recs| :: recs[i].start.value >= b.end.value;
        assert Covers(b, t) <==> b.start.value <= t;
      }
    }
  }

  /** The gaps of a chain start at the end of its first record. */
  lemma {:induction false} GapsAfter(recs: seq<Rec>, t: Time)
    requires Chain(recs) && recs[0].end.Some? && t < recs[0].end.value
    ensures !InGap(PairGaps(recs), t)
  {
    ChainOrder(recs);
    if |recs| > 1 {
      GapConcat(PairGap(recs[0], recs[1]), PairGaps(recs[1..]), t);
      GapsAfter(recs[1..], t);
    }
  }

  lemma {:induction false} GapsBefore(recs: seq<Rec>, t: Time)
    requires Chain(recs) && recs[|recs| - 1].end.Some? && recs[|recs| - 1].end.value <= t
    ensures !InGap(PairGaps(recs), t)
  {
    ChainOrder(recs);
    if |recs| > 1 {
      GapConcat(PairGap(recs[0], recs[1]), PairGaps(recs[1..]), t);
      GapsBefore(recs[1..], t);
    }
  }

  lemma {:induction false} NumbersIn(notes: seq<Note>, j: nat)
    ensures j in Numbers(notes) <==> exists i :: 0 <= i < |notes| && notes[i].k == Some(j)
  {
    if notes != [] {
      NumbersIn(notes[1..], j);
      if i :| 0 <= i < |notes| && notes[i].k == Some(j) {
        if i > 0 { assert notes[1..][i - 1] == notes[i]; }
      }
    }
  }

  lemma {:induction false} RangeIn(lo: nat, hi: nat, j: nat)
    ensures j in Range(lo, hi) <==> lo <= j < hi
    decreases hi - lo
  {
    if lo < hi {
      RangeIn(lo + 1, hi, j);
    }
  }

  lemma {:induction false} FindNumberFinds(notes: seq<Note>, j: nat)
    requires forall i | 0 <= i < |notes| :: NoteOk(notes[i]) && notes[i].rec.Some?
    ensures (exists i :: 0 <= i < |notes| && notes[i].k == Some(j)) ==> FindNumber(notes, j).Some?
    ensures FindNumber(notes, j).Some? ==> FindNumber(notes, j).value.k == j && RecOk(FindNumber(notes, j).value)
    ensures FindNumber(notes, j).Some? ==> exists i :: 0 <= i < |notes| && notes[i].rec == FindNumber(notes, j)
  {
    if notes != [] && notes[0].rec.value.k != j {
      FindNumberFinds(notes[1..], j);
      if i :| 0 <= i < |notes| && notes[i].k == Some(j) {
        assert notes[1..][i - 1] == notes[i];
      }
      if FindNumber(notes, j).Some? {
        var i :| 0 <= i < |notes[1..]| && notes[1..][i].rec == FindNumber(notes, j);
        assert notes[i + 1].rec == FindNumber(notes, j);
      }
    }
  }

  lemma {:induction false} InOrderNumbers(notes: seq<Note>, lo: nat, hi: nat, k: nat)
    requires AllReadable(notes) && Consecutive(notes, k) && 1 <= lo <= hi <= k
    requires forall i | 0 <= i < |notes| :: NoteOk(notes[i])
    ensures |InOrder(notes, lo, hi)| == hi - lo
    ensures forall i | 0 <= i < hi - lo :: InOrder(notes, lo, hi)[i].k == lo + i && RecOk(InOrder(notes, lo, hi)[i])
    decreases hi - lo
  {
    hide AllReadable, Consecutive, NoteOk, FindNumber, RecOk;
    if lo < hi {
      InOrderNumbers(notes, lo + 1, hi, k);
      NumberPresent(notes, lo, k);
    }
  }

  /** Each number below `k` is found. */
  lemma NumberPresent(notes: seq<Note>, j: nat, k: nat)
    requires AllReadable(notes) && Consecutive(notes, k) && 1 <= j < k
    requires forall i | 0 <= i < |notes| :: NoteOk(notes[i])
    ensures FindNumber(notes, j).Some? && FindNumber(notes, j).value.k == j && RecOk(FindNumber(notes, j).value)
  {
    hide NoteOk, RecOk, FindNumber, Numbers, Range;
    RangeIn(1, k, j);
    assert j in multiset(Range(1, k));
    assert j in multiset(Numbers(notes));
    NumbersIn(notes, j);
    FindNumberFinds(notes, j);
  }

  /** When a plan states a total, the earlier records are exactly 1..K-1, their windows and this
      one are in order without overlap, and the stated gaps are exactly the instants from the end
      of record 1 up to this window that no record covers. */
  lemma PriorTiles(earlier: seq<Note>, k: nat, since: Time)
    requires k >= 2 && forall i | 0 <= i < |earlier| :: NoteOk(earlier[i])
    requires PriorOf(earlier, k, since).reason.None?
    ensures var prior := PriorOf(earlier, k, since);
      && OrderedRecords(prior.records, k, since)
      && forall t | prior.records[0].end.value <= t < since :: Tiled(prior.records, prior.gaps, t)
  {
    var recs := InOrder(earlier, 1, k);
    PriorOrdered(earlier, k, since);
    PriorGaps(earlier, k, since);
    hide AllReadable, Consecutive, InOrder, FirstReason, PairGaps, NoteOk, Covers, InGap, PriorOf;
    ChainOfPrior(earlier, k, since);
    var last := recs[|recs| - 1];
    forall t | recs[0].end.value <= t < since ensures Tiled(recs, PairGaps(recs) + LastGap(last, since), t) {
      ChainTiles(recs, since, t);
    }
  }

  /** Records 1..k-1, each ending before the next one and `since` begin. */
  ghost predicate OrderedRecords(recs: seq<Rec>, k: nat, since: Time) {
    && |recs| == k - 1 && k >= 2
    && (forall i | 0 <= i < |recs| :: recs[i].k == i + 1 && recs[i].end.Some? && recs[i].end.value <= since)
    && (forall i, j | 0 <= i < j < |recs| :: recs[j].start.Some? && recs[i].end.value <= recs[j].start.value)
  }

  lemma PriorGaps(earlier: seq<Note>, k: nat, since: Time)
    requires k >= 2 && forall i | 0 <= i < |earlier| :: NoteOk(earlier[i])
    requires PriorOf(earlier, k, since).reason.None?
    ensures var recs := PriorOf(earlier, k, since).records;
      recs != [] && PriorOf(earlier, k, since).gaps == PairGaps(recs) + LastGap(recs[|recs| - 1], since)
  {
    ChainOfPrior(earlier, k, since);
    hide AllReadable, Consecutive, InOrder, FirstReason, PairGaps, NoteOk, Chain;
  }

  lemma PriorOrdered(earlier: seq<Note>, k: nat, since: Time)
    requires k >= 2 && forall i | 0 <= i < |earlier| :: NoteOk(earlier[i])
    requires PriorOf(earlier, k, since).reason.None?
    ensures OrderedRecords(PriorOf(earlier, k, since).records, k, since)
  {
    var recs := InOrder(earlier, 1, k);
    ChainOfPrior(earlier, k, since);
    InOrderNumbers(earlier, 1, k, k);
    hide AllReadable, Consecutive, InOrder, FirstReason, NoteOk, PriorOf;
    ChainOrder(recs);
  }

  /** An instant is in a stated gap exactly when no record's window covers it. */
  ghost predicate Tiled(recs: seq<Rec>, gaps: seq<(Time, Time)>, t: Time) {
    InGap(gaps, t) <==> !exists i :: 1 <= i < |recs| && Covers(recs[i], t)
  }

  function LastGap(last: Rec, since: Time): seq<(Time, Time)> {
    if last.end.Some? && since > last.end.value then [(last.end.value, since)] else []
  }

  lemma ChainOfPrior(earlier: seq<Note>, k: nat, since: Time)
    requires k >= 2 && forall i | 0 <= i < |earlier| :: NoteOk(earlier[i])
    requires PriorOf(earlier, k, since).reason.None?
    ensures AllReadable(earlier) && Consecutive(earlier, k)
    ensures Chain(InOrder(earlier, 1, k)) && |InOrder(earlier, 1, k)| == k - 1
    ensures InOrder(earlier, 1, k)[k - 2].end.value <= since
    ensures PriorOf(earlier, k, since).records == InOrder(earlier, 1, k)
  {
    InOrderNumbers(earlier, 1, k, k);
  }

  lemma ChainTiles(recs: seq<Rec>, since: Time, t: Time)
    requires Chain(recs) && recs[0].end.Some? && recs[|recs| - 1].end.value <= since && recs[0].end.value <= t < since
    ensures Tiled(recs, PairGaps(recs) + LastGap(recs[|recs| - 1], since), t)
  {
    ChainOrder(recs);
    var last := recs[|recs| - 1];
    GapConcat(PairGaps(recs), LastGap(last, since), t);
    if t < last.end.value {
      GapsTile(recs, t);
    } else {
      GapsBefore(recs, t);
      assert LastGap(last, since)[0] == (last.end.value, since);
      assert forall i | 1 <= i < |recs| :: !Covers(recs[i], t);
    }
  }

  /** What one record adds to a column; a family it does not show was not used in it. */
  function Contribution(r: Totals, c: Column): Option<real> {
    if c in r then r[c] else Some(0.0)
  }

  function Own(own: Totals, c: Column): Option<real> {
    if c in own then own[c] else None
  }

  /** The exact sum over records, unavailable as soon as one record lacks the figure. */
  function RunningSum(first: Option<real>, recs: seq<Rec>, c: Column): Option<real> {
    if recs == [] then first
    else
      var before, here := RunningSum(first, recs[..|recs| - 1], c), Contribution(recs[|recs| - 1].total, c);
      if before.None? || here.None? then None else Some(before.value + here.value)
  }

  /** The nearest whole number, ties to the even one. */
  function HalfEven(x: real): int {
    var n := x.Floor;
    if x - n as real < 0.5 then n else if x - n as real > 0.5 then n + 1 else if n % 2 == 0 then n else n + 1
  }

  /** A sum as its cell states it: dollars quantized to cents. */
  function Shown(c: Column, sum: real): real {
    if IsCost(c) then HalfEven(sum * 100.0) as real / 100.0 else sum
  }

  function ShownSum(first: Option<real>, recs: seq<Rec>, c: Column): Option<real> {
    var sum := RunningSum(first, recs, c);
    if sum.None? then None else Some(Shown(c, sum.value))
  }

  method RunningCell(own: Totals, c: Column, recs: seq<Rec>) returns (cell: Option<real>)
    ensures cell == ShownSum(Own(own, c), recs, c)
  {
    cell := Own(own, c);
    var i := 0;
    while i < |recs|
      invariant 0 <= i <= |recs|
      invariant cell == RunningSum(Own(own, c), recs[..i], c)
    {
      assert recs[..i + 1][..i] == recs[..i];
      var here := Contribution(recs[i].total, c);
      cell := if cell.None? || here.None? then None else Some(cell.value + here.value);
      i := i + 1;
    }
    assert recs[..i] == recs;
    if cell.Some? {
      cell := Some(Shown(c, cell.value));
    }
  }

  lemma {:induction false} RunningSumFirst(a: real, recs: seq<Rec>, c: Column)
    ensures RunningSum(Some(a), recs, c).Some? <==> RunningSum(Some(0.0), recs, c).Some?
    ensures RunningSum(Some(a), recs, c).Some? ==>
      RunningSum(Some(a), recs, c).value == a + RunningSum(Some(0.0), recs, c).value
    ensures RunningSum(None, recs, c).None?
  {
    if recs != [] {
      RunningSumFirst(a, recs[..|recs| - 1], c);
    }
  }

  /** Each exact running total is the previous record's plus this record's own figure, and is
      unavailable exactly when either of those is; a column that the previous record did not show
      counts as zero in it. */
  lemma RunningTotalGrows(recs: seq<Rec>, posted: Rec, own: Totals, c: Column)
    ensures var previous := RunningSum(Contribution(posted.total, c), recs, c);
      RunningSum(Own(own, c), recs + [posted], c)
      == if previous.None? || Own(own, c).None? then None else Some(previous.value + Own(own, c).value)
  {
    var before := Contribution(posted.total, c);
    assert (recs + [posted])[..|recs|] == recs;
    if before.Some? {
      RunningSumFirst(before.value, recs, c);
    }
    RunningSumFirst(0.0, recs, c);
    if Own(own, c).Some? {
      RunningSumFirst(Own(own, c).value, recs, c);
    }
  }

  /** A shown sum is within half a cent of the exact one, and is it for tokens and whole cents. */
  lemma ShownNear(c: Column, sum: real)
    ensures -0.005 <= Shown(c, sum) - sum <= 0.005
    ensures !IsCost(c) || Whole(sum * 100.0) ==> Shown(c, sum) == sum
  {}

  predicate Whole(x: real) { x.Floor as real == x }

  predicate Tie(x: real) { x - x.Floor as real == 0.5 }

  lemma FloorShift(x: real, n: int)
    ensures (x + n as real).Floor == x.Floor + n
  {}

  /** Rounding commutes with adding `a` exactly if `a` is whole, and even where the sum is halfway. */
  lemma HalfEvenGrows(x: real, a: real)
    ensures HalfEven(x + a) as real == HalfEven(x) as real + a <==> Whole(a) && (Tie(x) ==> a.Floor % 2 == 0)
  {
    if Whole(a) {
      var n := a.Floor;
      FloorShift(x, n);
      assert (x + a).Floor == x.Floor + n;
    } else {
      WholeInt(HalfEven(x + a) - HalfEven(x));
    }
  }

  lemma WholeInt(n: int)
    ensures Whole(n as real)
  {}

  /** The running total that is printed is the one printed before plus this record's own figure
      exactly if that figure is in whole cents, and in an even number of them where the sum before
      lies halfway between two cents. */
  lemma ShownTotalGrows(recs: seq<Rec>, posted: Rec, own: Totals, c: Column)
    requires RunningSum(Contribution(posted.total, c), recs, c).Some? && Own(own, c).Some?
    ensures var sum, a := RunningSum(Contribution(posted.total, c), recs, c).value, Own(own, c).value;
      ShownSum(Own(own, c), recs + [posted], c)
        == Some(ShownSum(Contribution(posted.total, c), recs, c).value + a)
      <==> !IsCost(c) || (Whole(a * 100.0) && (Tie(sum * 100.0) ==> (a * 100.0).Floor % 2 == 0))
  {
    var sum, a := RunningSum(Contribution(posted.total, c), recs, c).value, Own(own, c).value;
    hide RunningSum, HalfEven, Whole, Tie;
    RunningTotalGrows(recs, posted, own, c);
    HalfEvenGrows(sum * 100.0, a * 100.0);
    Hundredths(sum, a, HalfEven(sum * 100.0), HalfEven((sum + a) * 100.0));
  }

  lemma Hundredths(sum: real, a: real, before: int, after: int)
    ensures (sum + a) * 100.0 == sum * 100.0 + a * 100.0
    ensures after as real / 100.0 == before as real / 100.0 + a <==> after as real == before as real + a * 100.0
  {}

  /** All figures of the column, this record's and the earlier ones, are in whole cents. */
  predicate WholeCents(first: real, recs: seq<Rec>, c: Column) {
    && Whole(first * 100.0)
    && forall i | 0 <= i < |recs| && Contribution(recs[i].total, c).Some? ::
      Whole(Contribution(recs[i].total, c).value * 100.0)
  }

  /** Then nothing is rounded: the printed total is the exact one. */
  lemma {:induction false} WholeCentsShown(first: real, recs: seq<Rec>, c: Column)
    requires WholeCents(first, recs, c)
    ensures RunningSum(Some(first), recs, c).Some? ==> Whole(RunningSum(Some(first), recs, c).value * 100.0)
    ensures ShownSum(Some(first), recs, c) == RunningSum(Some(first), recs, c)
  {
    hide Whole, HalfEven;
    if recs != [] {
      WholeCentsShown(first, recs[..|recs| - 1], c);
      var before, here := RunningSum(Some(first), recs[..|recs| - 1], c), Contribution(recs[|recs| - 1].total, c);
      if before.Some? && here.Some? {
        WholeAdds(before.value, here.value);
      }
    }
    if RunningSum(Some(first), recs, c).Some? {
      ShownNear(c, RunningSum(Some(first), recs, c).value);
    }
  }

  lemma WholeAdds(a: real, b: real)
    requires Whole(a * 100.0) && Whole(b * 100.0)
    ensures Whole((a + b) * 100.0)
  {
    assert (a + b) * 100.0 == ((a * 100.0).Floor + (b * 100.0).Floor) as real;
  }

  /** Record `k` of a merge request that costs 0.004 USD in each of its windows. */
  function Costing(k: nat): Rec {
    Rec(k, if k == 1 then None else Some(10 * (k - 1)), Some(10 * k), map[AllCost := Some(0.004)])
  }

  function CostNote(k: nat): Note { Note(k, Some(k), Some(Costing(k))) }

  /** Three records of 0.004 USD, one window after another: the running total printed is 0.01 at the
      second and 0.01 at the third. */
  lemma SmallCostsAreLost()
    ensures NotesOk([CostNote(1), CostNote(2), CostNote(3)])
    ensures var prior := PriorOf([CostNote(1)], 2, 10);
      prior.reason == None && ShownSum(Some(0.004), prior.records, AllCost) == Some(0.01)
    ensures var prior := PriorOf([CostNote(1), CostNote(2)], 3, 20);
      prior.reason == None && ShownSum(Some(0.004), prior.records, AllCost) == Some(0.01)
  {
    FirstPrior();
    SecondPrior();
    hide PriorOf;
    assert [Costing(1), Costing(2)][..1] == [Costing(1)] && [Costing(1)][..0] == [];
    assert RunningSum(Some(0.004), [], AllCost) == Some(0.004);
    assert RunningSum(Some(0.004), [Costing(1)], AllCost) == Some(0.008);
    assert RunningSum(Some(0.004), [Costing(1), Costing(2)], AllCost) == Some(0.012);
    assert 0.8.Floor == 0 && 1.2.Floor == 1;
    assert HalfEven(0.008 * 100.0) == 1 && HalfEven(0.012 * 100.0) == 1;
  }

  lemma FirstPrior()
    ensures PriorOf([CostNote(1)], 2, 10) == Prior([Costing(1)], None, [])
  {
    var one := [CostNote(1)];
    assert one[1..] == [];
    assert Consecutive(one, 2) by {
      assert Numbers(one) == [1] && Range(2, 2) == [] && Range(1, 2) == [1];
    }
    hide Consecutive, Numbers, Range;
    assert FindNumber(one, 1) == Some(Costing(1));
    assert InOrder(one, 2, 2) == [] && InOrder(one, 1, 2) == [Costing(1)];
  }

  lemma SecondPrior()
    ensures PriorOf([CostNote(1), CostNote(2)], 3, 20) == Prior([Costing(1), Costing(2)], None, [])
  {
    var two := [CostNote(1), CostNote(2)];
    assert two[1..] == [CostNote(2)] && [CostNote(2)][1..] == [];
    assert Consecutive(two, 3) by {
      assert Numbers([CostNote(2)]) == [2] && Numbers(two) == [1] + [2];
      assert Range(3, 3) == [] && Range(2, 3) == [2] && Range(1, 3) == [1] + [2];
    }
    hide Consecutive, Numbers, Range;
    var recs := [Costing(1), Costing(2)];
    assert FindNumber([CostNote(2)], 2) == Some(Costing(2)) && FindNumber(two, 2) == Some(Costing(2));
    assert FindNumber(two, 1) == Some(Costing(1));
    assert InOrder(two, 3, 3) == [] && InOrder(two, 2, 3) == [Costing(2)];
    assert InOrder(two, 1, 3) == [Costing(1)] + [Costing(2)] == recs;
    assert recs[1..] == [Costing(2)];
    assert FirstReason(recs) == None && PairGaps(recs) == [];
  }

  // ----- one follow-up after another

  lemma {:induction false} NumbersSnoc(notes: seq<Note>, n: Note)
    requires n.k.Some?
    ensures Numbers(notes + [n]) == Numbers(notes) + [n.k.value]
  {
    if notes == [] {
      assert [] + [n] == [n];
    } else {
      var here := if notes[0].k.Some? then [notes[0].k.value] else [];
      NumbersSnoc(notes[1..], n);
      assert (notes + [n])[0] == notes[0] && (notes + [n])[1..] == notes[1..] + [n];
      assert here + (Numbers(notes[1..]) + [n.k.value]) == here + Numbers(notes[1..]) + [n.k.value];
    }
  }

  lemma {:induction false} RangeSnoc(lo: nat, hi: nat)
    requires lo <= hi
    ensures Range(lo, hi + 1) == Range(lo, hi) + [hi]
    decreases hi - lo
  {
    if lo < hi {
      RangeSnoc(lo + 1, hi);
    }
  }

  lemma {:induction false} NumbersLength(notes: seq<Note>)
    requires AllReadable(notes)
    ensures |Numbers(notes)| == |notes|
  {
    if notes != [] {
      NumbersLength(notes[1..]);
    }
  }

  lemma {:induction false} RangeLength(lo: nat, hi: nat)
    requires lo <= hi
    ensures |Range(lo, hi)| == hi - lo
    decreases hi - lo
  {
    if lo < hi {
      RangeLength(lo + 1, hi);
    }
  }

  lemma {:induction false} FindNumberSnoc(notes: seq<Note>, n: Note, j: nat)
    requires n.rec.Some?
    ensures FindNumber(notes, j).Some? ==> FindNumber(notes + [n], j) == FindNumber(notes, j)
    ensures FindNumber(notes, j).None? ==> FindNumber(notes + [n], j) == if n.rec.value.k == j then n.rec else None
  {
    if notes == [] {
      assert [] + [n] == [n];
    } else {
      assert (notes + [n])[1..] == notes[1..] + [n];
      FindNumberSnoc(notes[1..], n, j);
    }
  }

  lemma {:induction false} InOrderSnoc(notes: seq<Note>, n: Note, lo: nat, k: nat)
    requires AllReadable(notes) && Consecutive(notes, k) && 1 <= lo <= k
    requires n.rec.Some? && n.rec.value.k == k
    requires forall i | 0 <= i < |notes| :: NoteOk(notes[i])
    ensures InOrder(notes + [n], lo, k + 1) == InOrder(notes, lo, k) + [n.rec.value]
    decreases k - lo
  {
    hide Consecutive, AllReadable, NoteOk, InOrder, FindNumber;
    FindNumberSnoc(notes, n, lo);
    InOrderStep(notes + [n], lo, k + 1);
    if lo == k {
      NumberAbsent(notes, k);
      InOrderEnds(notes, k);
      InOrderEnds(notes + [n], k + 1);
    } else {
      InOrderSnoc(notes, n, lo + 1, k);
      InOrderStep(notes, lo, k);
      InOrderNumbers(notes, lo, lo + 1, k);
      InOrderStep(notes, lo, lo + 1);
      InOrderEnds(notes, lo + 1);
    }
  }

  lemma InOrderStep(notes: seq<Note>, lo: nat, hi: nat)
    requires lo < hi
    ensures InOrder(notes, lo, hi)
         == (if FindNumber(notes, lo).Some? then [FindNumber(notes, lo).value] else []) + InOrder(notes, lo + 1, hi)
  {}

  lemma InOrderEnds(notes: seq<Note>, hi: nat)
    ensures InOrder(notes, hi, hi) == []
  {}

  lemma NumberAbsent(notes: seq<Note>, k: nat)
    requires AllReadable(notes) && Consecutive(notes, k)
    requires forall i | 0 <= i < |notes| :: NoteOk(notes[i])
    ensures FindNumber(notes, k).None?
  {
    FindNumberFinds(notes, k);
    if FindNumber(notes, k).Some? {
      var i :| 0 <= i < |notes| && notes[i].rec == FindNumber(notes, k);
      assert notes[i].k == Some(k);
      NumbersIn(notes, k);
      assert k in multiset(Numbers(notes));
      assert k in multiset(Range(1, k));
      RangeIn(1, k, k);
    }
  }

  lemma {:induction false} FirstReasonSnoc(recs: seq<Rec>, r: Rec)
    requires Chain(recs) && r.start.Some? && recs[|recs| - 1].end.value <= r.start.value
    ensures FirstReason(recs + [r]).None?
    ensures PairGaps(recs + [r]) == PairGaps(recs) + LastGap(recs[|recs| - 1], r.start.value)
  {
    ChainOrder(recs);
    if |recs| == 1 {
      assert (recs + [r])[1..] == [r];
      assert PairGaps(recs + [r]) == PairGap(recs[0], r) + PairGaps([r]);
    } else {
      assert (recs + [r])[1..] == recs[1..] + [r];
      FirstReasonSnoc(recs[1..], r);
      var gap := PairGap(recs[0], recs[1]);
      assert gap + (PairGaps(recs[1..]) + LastGap(recs[|recs| - 1], r.start.value))
        == gap + PairGaps(recs[1..]) + LastGap(recs[|recs| - 1], r.start.value);
    }
  }

  lemma ConsecutiveSnoc(s: seq<Note>, n: Note, k: nat)
    requires k >= 1 && AllReadable(s) && Consecutive(s, k) && n.k == Some(k) && n.rec.Some?
    ensures AllReadable(s + [n]) && Consecutive(s + [n], k + 1) && |s| == k - 1
  {
    NumbersLength(s);
    RangeLength(1, k);
    assert |multiset(Numbers(s))| == |multiset(Range(1, k))|;
    NumbersSnoc(s, n);
    RangeSnoc(1, k);
  }

  lemma PriorSnoc(s: seq<Note>, s': seq<Note>, n: Note, k: nat, since: Time, since': Time)
    requires s' == s + [n]
    requires k >= 2 && (forall i | 0 <= i < |s| :: NoteOk(s[i])) && PriorOf(s, k, since).reason.None?
    requires NoteOk(n) && n.k == Some(k) && n.rec.Some? && n.rec.value.start == Some(since) && n.rec.value.end.Some?
    requires n.rec.value.end.value <= since'
    ensures var prior := PriorOf(s', k + 1, since');
      && prior.reason.None? && prior.records == PriorOf(s, k, since).records + [n.rec.value]
      && prior.gaps == PriorOf(s, k, since).gaps + LastGap(n.rec.value, since')
  {
    var recs, rec := InOrder(s, 1, k), n.rec.value;
    ChainOfPrior(s, k, since);
    ConsecutiveSnoc(s, n, k);
    InOrderSnoc(s, n, 1, k);
    FirstReasonSnoc(recs, rec);
    hide AllReadable, Consecutive, InOrder, FirstReason, PairGaps, Chain;
    assert PriorOf(s, k, since).gaps == PairGaps(recs) + LastGap(recs[|recs| - 1], since);
    assert (recs + [rec])[|recs + [rec]| - 1] == rec;
  }

  /** `s'` is `s` with the record numbered `k` for the window posted and read back. */
  ghost predicate PostedAs(s: seq<Note>, s': seq<Note>, k: nat, since: Time, until: Time) {
    && |s'| == |s| + 1 && s' == s + [s'[|s|]] && k >= 2 && Top(s') == k
    && NoteOk(s'[|s|]) && s'[|s|].k == Some(k) && s'[|s|].rec.Some?
    && s'[|s|].rec.value.start == Some(since) && s'[|s|].rec.value.end == Some(until)
    && forall i | 0 <= i < |s| :: NoteOk(s[i])
  }

  lemma PostedFollowup(s: seq<Note>, s': seq<Note>, since: Time, until: Time)
    requires NotesOk(s) && since <= until && FollowupStep(s, s', since, until)
    requires PlanFor(s, since, until).Planned? && PlanFor(s, since, until).target.None?
    requires PlanFor(s, since, until).k <= MAX_NUMBER && s'[|s|].rec.Some?
    ensures PostedAs(s, s', PlanFor(s, since, until).k, since, until)
    ensures PlanFor(s, since, until).prior == PriorOf(s, PlanFor(s, since, until).k, since)
  {
    hide PriorOf, Latest, Rewritten;
    var plan, n := PlanFor(s, since, until), s'[|s|];
    assert s' == s + [n];
    assert NumberOf(s'[|s|]) == plan.k;
  }

  lemma PostedChain(s: seq<Note>, s': seq<Note>, k: nat, since: Time, until: Time, since': Time)
    requires PostedAs(s, s', k, since, until) && until <= since' && PriorOf(s, k, since).reason.None?
    ensures |s'| == k
    ensures var before, prior := PriorOf(s, k, since), PriorOf(s', k + 1, since');
      && prior.reason.None? && prior.records == before.records + [s'[|s|].rec.value]
      && prior.gaps == before.gaps + LastGap(s'[|s|].rec.value, since')
  {
    hide PriorOf, Top;
    NextNumber(s, s'[|s|], k, since);
    PriorSnoc(s, s', s'[|s|], k, since, since');
  }

  lemma {:induction false} RangeOnce(lo: nat, hi: nat, j: nat)
    ensures multiset(Range(lo, hi))[j] <= 1
    decreases hi - lo
  {
    if lo < hi {
      RangeIn(lo + 1, hi, j);
      RangeOnce(lo + 1, hi, j);
    }
  }

  /** With each number once, the note of a number is the one found. */
  lemma {:induction false} FindsTheNote(notes: seq<Note>, i: nat)
    requires i < |notes| && AllReadable(notes) && forall n | 0 <= n < |notes| :: NoteOk(notes[n])
    requires multiset(Numbers(notes))[notes[i].k.value] <= 1
    ensures FindNumber(notes, notes[i].k.value) == notes[i].rec
  {
    var j, rest := notes[i].k.value, notes[1..];
    assert Numbers(notes) == [notes[0].k.value] + Numbers(rest);
    if i > 0 {
      assert rest[i - 1] == notes[i];
      NumbersIn(rest, j);
      assert j in multiset(Numbers(rest));
      FindsTheNote(rest, i - 1);
    }
  }

  lemma {:induction false} InOrderAt(notes: seq<Note>, lo: nat, hi: nat, k: nat, j: nat)
    requires AllReadable(notes) && Consecutive(notes, k) && 1 <= lo <= j < hi <= k
    requires forall i | 0 <= i < |notes| :: NoteOk(notes[i])
    ensures FindNumber(notes, j).Some? && FindNumber(notes, j).value in InOrder(notes, lo, hi)
    decreases hi - lo
  {
    hide AllReadable, Consecutive, NoteOk, FindNumber, RecOk;
    NumberPresent(notes, j, k);
    if lo < j {
      InOrderAt(notes, lo + 1, hi, k, j);
    }
  }

  /** The notes behind a stated total all end before its window begins. */
  lemma EarlierEnd(s: seq<Note>, k: nat, since: Time, i: nat)
    requires k >= 2 && (forall n | 0 <= n < |s| :: NoteOk(s[n])) && PriorOf(s, k, since).reason.None? && i < |s|
    ensures s[i].rec.Some? && s[i].rec.value.end.Some? && s[i].rec.value.end.value <= since
  {
    hide NoteOk, InOrder, FindNumber, FirstReason;
    ChainOfPrior(s, k, since);
    PriorOrdered(s, k, since);
    var j := s[i].k.value;
    RangeOnce(1, k, j);
    FindsTheNote(s, i);
    NumbersIn(s, j);
    assert j in multiset(Numbers(s));
    assert j in multiset(Range(1, k));
    RangeIn(1, k, j);
    InOrderAt(s, 1, k, k, j);
  }

  /** Follow-ups chain: after one that stated a total was posted and read back, a later window is
      planned as a new note with the next number, states a total as well, and adds up exactly one
      more record. */
  lemma FollowupsChain(s: seq<Note>, s': seq<Note>, since: Time, until: Time, since': Time, until': Time)
    requires NotesOk(s) && since <= until <= since' <= until' && until < until' && FollowupStep(s, s', since, until)
    requires PlanFor(s, since, until).Planned? && PlanFor(s, since, until).target.None?
    requires PlanFor(s, since, until).prior.reason.None? && PlanFor(s, since, until).k <= MAX_NUMBER
    requires s'[|s|].rec.Some?
    ensures var plan, next := PlanFor(s, since, until), PlanFor(s', since', until');
      && next.Planned? && next.target.None? && next.k == plan.k + 1
      && Extends(plan.prior, next.prior, s'[|s|].rec.value, since')
  {
    hide PriorOf, FollowupStep, NotesOk, Top, NoteOk, LastGap, Latest, Extends;
    PostedFollowup(s, s', since, until);
    var plan := PlanFor(s, since, until);
    PostedChain(s, s', plan.k, since, until, since');
    assert Top(s') == plan.k && |s'| == plan.k;
    forall i: nat | i < |s'| ensures !HasWindow(s'[i], since', until') {
      if i < |s| {
        assert s'[i] == s[i];
        EarlierEnd(s, plan.k, since, i);
      }
    }
    assert Extends(plan.prior, PriorOf(s', plan.k + 1, since'), s'[|s|].rec.value, since') by {
      ExtendsIs(plan.prior, PriorOf(s', plan.k + 1, since'), s'[|s|].rec.value, since');
    }
    LatestIsOwn(s');
  }

  lemma LatestIsOwn(own: seq<Note>)
    ensures Latest(own).Some? ==> Latest(own).value in own
  {
    FilterOne(own, (n: Note) => NumberOf(n) == Top(own));
  }

  lemma ExtendsIs(before: Prior, after: Prior, posted: Rec, since: Time)
    requires after.reason.None? && after.records == before.records + [posted]
      && after.gaps == before.gaps + LastGap(posted, since)
    ensures Extends(before, after, posted, since)
  {}

  /** A later prior states a total too, over one more record and with at most one more gap. */
  predicate Extends(before: Prior, after: Prior, posted: Rec, since: Time) {
    && after.reason.None?
    && after.records == before.records + [posted]
    && after.gaps == before.gaps + LastGap(posted, since)
  }

  lemma NextNumber(s: seq<Note>, n: Note, k: nat, since: Time)
    requires k >= 2 && (forall i | 0 <= i < |s| :: NoteOk(s[i])) && PriorOf(s, k, since).reason.None?
    requires n.k == Some(k) && n.rec.Some?
    ensures |s + [n]| == k
  {
    ChainOfPrior(s, k, since);
    ConsecutiveSnoc(s, n, k);
  }
}
