/** The yield watch: outcomes of merge requests folded into a running state behind a watermark
    (`scripts/kaizen_yield_watch.py`). */
module YieldWatch {
  import opened Common

  // ----- outcomes of one merge request

  datatype Outcome = Positive | Zero

  /** A gate line of a description: findings with their number, or no findings outcome. */
  datatype Line = Line(gate: string, tracked: bool, findings: Option<int>)

  ghost predicate Says(line: Line, gate: string) {
    line.gate == gate && line.tracked && line.findings.Some?
  }

  ghost predicate Finds(lines: seq<Line>, gate: string) {
    exists i :: 0 <= i < |lines| && Says(lines[i], gate) && lines[i].findings.value > 0
  }

  ghost predicate Mentions(lines: seq<Line>, gate: string) {
    exists i :: 0 <= i < |lines| && Says(lines[i], gate)
  }

  /** A gate has an outcome if a line of findings names it; one line with findings makes it positive. */
  ghost predicate AreOutcomes(outcomes: map<string, Outcome>, lines: seq<Line>) {
    && (forall gate :: gate in outcomes <==> Mentions(lines, gate))
    && (forall gate | gate in outcomes :: outcomes[gate] == if Finds(lines, gate) then Positive else Zero)
  }

  method MrOutcomes(lines: seq<Line>) returns (outcomes: map<string, Outcome>)
    ensures forall gate :: gate in outcomes <==>
      exists line :: line in lines && line.gate == gate && line.tracked && line.findings != None
    ensures forall gate | gate in outcomes :: outcomes[gate] == Positive <==>
      exists line ::
        line in lines && line.gate == gate && line.tracked && line.findings.Some? && line.findings.value > 0
  {
    outcomes := map[];
    for i := 0 to |lines|
      invariant AreOutcomes(outcomes, lines[..i])
    {
      var line := lines[i];
      Snoc(lines, i);
      if !line.tracked || line.findings.None? {
        continue;
      }
      if line.findings.value > 0 {
        outcomes := outcomes[line.gate := Positive];
      } else if line.gate !in outcomes {
        outcomes := outcomes[line.gate := Zero];
      }
    }
    assert lines[..|lines|] == lines;
    forall gate
      ensures Mentions(lines, gate) <==>
        exists line :: line in lines && line.gate == gate && line.tracked && line.findings != None
      ensures Finds(lines, gate) <==> exists line ::
        line in lines && line.gate == gate && line.tracked && line.findings.Some? && line.findings.value > 0
    {
      SomeLine(lines, gate);
    }
  }

  lemma SomeLine(lines: seq<Line>, gate: string)
    ensures Mentions(lines, gate) <==>
      exists line :: line in lines && line.gate == gate && line.tracked && line.findings != None
    ensures Finds(lines, gate) <==> exists line ::
      line in lines && line.gate == gate && line.tracked && line.findings.Some? && line.findings.value > 0
  {
    assert forall i | 0 <= i < |lines| :: lines[i] in lines;
  }

  lemma Snoc(lines: seq<Line>, i: nat)
    requires i < |lines|
    ensures forall g :: Mentions(lines[..i + 1], g) <==> Mentions(lines[..i], g) || Says(lines[i], g)
    ensures forall g :: Finds(lines[..i + 1], g) <==>
      Finds(lines[..i], g) || (Says(lines[i], g) && lines[i].findings.value > 0)
  {
    var a, b := lines[..i], lines[..i + 1];
    assert b[i] == lines[i] && forall j | 0 <= j < i :: b[j] == a[j];
  }

  // ----- the state

  /** A merge request: its merge time (0 if it is not merged), number, diff shape and outcomes. */
  datatype Mr = Mr(time: nat, iid: int, shape: string, outcomes: map<string, Outcome>)

  datatype Pair = Pair(streak: nat, runs: nat, zero: nat, positive: nat, evidence: seq<int>)

  const FRESH := Pair(0, 0, 0, 0, [])

  /** A gate and a diff shape. */
  type Key = (string, string)

  datatype State = State(time: nat, iid: int, threshold: nat, pairs: map<Key, Pair>, proposed: seq<Key>)

  predicate Before(t: nat, i: int, u: nat, j: int) {
    t < u || (t == u && i < j)
  }

  predicate Precedes(a: Mr, b: Mr) { Before(a.time, a.iid, b.time, b.iid) }

  /** Merged, and after the watermark. */
  predicate Newer(time: nat, iid: int, m: Mr) {
    m.time > 0 && Before(time, iid, m.time, m.iid)
  }

  function After(time: nat, iid: int): Mr -> bool {
    (m: Mr) => Newer(time, iid, m)
  }

  /** The last `n` of a list, as Python's `[-n:]` takes them: all of it for 0. */
  function Last(xs: seq<int>, n: nat): seq<int> {
    if n == 0 || n >= |xs| then xs else xs[|xs| - n..]
  }

  function Step(p: Pair, o: Outcome, iid: int, threshold: nat): Pair {
    match o
    case Zero => Pair(p.streak + 1, p.runs + 1, p.zero + 1, p.positive, Last(p.evidence + [iid], threshold))
    case Positive => Pair(0, p.runs + 1, p.zero, p.positive + 1, [])
  }

  function Get(pairs: map<Key, Pair>, k: Key): Pair {
    if k in pairs then pairs[k] else FRESH
  }

  /** The pairs after the outcomes of some of the gates are counted, one step each. */
  function Applied(pairs: map<Key, Pair>, m: Mr, gates: set<string>, threshold: nat): map<Key, Pair>
    requires gates <= m.outcomes.Keys
  {
    map k | k in pairs.Keys + set g | g in gates :: (g, m.shape) ::
      if k.1 == m.shape && k.0 in gates then Step(Get(pairs, k), m.outcomes[k.0], m.iid, threshold) else Get(pairs, k)
  }

  function Apply(pairs: map<Key, Pair>, m: Mr, threshold: nat): map<Key, Pair> {
    Applied(pairs, m, m.outcomes.Keys, threshold)
  }

  lemma AppliedNext(pairs: map<Key, Pair>, m: Mr, gates: set<string>, gate: string, threshold: nat)
    requires gates <= m.outcomes.Keys && gate in m.outcomes && gate !in gates
    ensures var key, was := (gate, m.shape), Applied(pairs, m, gates, threshold);
      && Get(was, key) == Get(pairs, key)
      && Applied(pairs, m, gates + {gate}, threshold)
        == was[key := Step(Get(pairs, key), m.outcomes[gate], m.iid, threshold)]
  {
    hide Step;
    var key, was := (gate, m.shape), Applied(pairs, m, gates, threshold);
    var next := Applied(pairs, m, gates + {gate}, threshold);
    assert next.Keys == was.Keys + {key};
  }

  lemma NothingApplied(pairs: map<Key, Pair>, m: Mr, threshold: nat)
    ensures Applied(pairs, m, {}, threshold) == pairs
  {}

  function Play(pairs: map<Key, Pair>, ms: seq<Mr>, threshold: nat): map<Key, Pair> {
    if ms == [] then pairs else Apply(Play(pairs, ms[..|ms| - 1], threshold), ms[|ms| - 1], threshold)
  }

  function Insert(m: Mr, ms: seq<Mr>): seq<Mr> {
    if ms == [] || !Precedes(ms[0], m) then [m] + ms else [ms[0]] + Insert(m, ms[1..])
  }

  /** Sorted by merge time and number; equal ones stay in their order. */
  function Sort(ms: seq<Mr>): seq<Mr> {
    if ms == [] then [] else Insert(ms[0], Sort(ms[1..]))
  }

  /** A proposal stays while its streak lasts. */
  function Lasting(pairs: map<Key, Pair>, threshold: nat): Key -> bool {
    (k: Key) => Get(pairs, k).streak >= threshold
  }

  function Batch(s: State, mrs: seq<Mr>): seq<Mr> {
    Sort(Filter(mrs, After(s.time, s.iid)))
  }

  function FoldOf(s: State, mrs: seq<Mr>): State {
    var batch := Batch(s, mrs);
    var pairs := Play(s.pairs, batch, s.threshold);
    var proposed := Filter(s.proposed, Lasting(pairs, s.threshold));
    if batch == [] then State(s.time, s.iid, s.threshold, pairs, proposed)
    else State(batch[|batch| - 1].time, batch[|batch| - 1].iid, s.threshold, pairs, proposed)
  }

  /** The proposed pairs with those that are new among the filed ones. */
  function Joined(proposed: seq<Key>, filed: seq<Key>): seq<Key> {
    proposed + Filter(filed, (k: Key) => k !in proposed)
  }

  class Watch {
    var lastTime: nat
    var lastIid: int
    var threshold: nat
    var pairs: map<Key, Pair>
    var proposed: seq<Key>

    function Value(): State
      reads this
    {
      State(lastTime, lastIid, threshold, pairs, proposed)
    }

    constructor (threshold: nat)
      ensures Value() == State(0, 0, threshold, map[], [])
    {
      this.threshold, lastTime, lastIid, pairs, proposed := threshold, 0, 0, map[], [];
    }

    method Fold(mrs: seq<Mr>) returns (count: nat)
      modifies this
      ensures Value() == FoldOf(old(Value()), mrs)
      ensures count == |Batch(old(Value()), mrs)|
    {
      hide Apply, Sort, Filter, After, Lasting;
      ghost var before := Value();
      var batch := Sort(Filter(mrs, After(lastTime, lastIid)));
      for i := 0 to |batch|
        invariant threshold == before.threshold && proposed == before.proposed
        invariant pairs == Play(before.pairs, batch[..i], threshold)
        invariant lastTime == if i == 0 then before.time else batch[i - 1].time
        invariant lastIid == if i == 0 then before.iid else batch[i - 1].iid
      {
        assert batch[..i + 1][..i] == batch[..i];
        Record(batch[i]);
        lastTime, lastIid := batch[i].time, batch[i].iid;
      }
      assert batch[..|batch|] == batch;
      proposed := Filter(proposed, Lasting(pairs, threshold));
      count := |batch|;
    }

    /** Adds the pairs for which issues were filed to the proposed ones. */
    method Propose(filed: seq<Key>)
      modifies `proposed
      ensures Value() == old(Value()).(proposed := Joined(old(proposed), filed))
    {
      proposed := Joined(proposed, filed);
    }

    /** Counts one outcome of a pair. */
    method Count(key: Key, outcome: Outcome, iid: int)
      modifies `pairs
      ensures pairs == old(pairs)[key := Step(Get(old(pairs), key), outcome, iid, threshold)]
    {
      hide Last;
      if key !in pairs {
        pairs := pairs[key := FRESH];
      }
      var p := pairs[key];
      p := p.(runs := p.runs + 1);
      if outcome == Zero {
        p := p.(zero := p.zero + 1, streak := p.streak + 1, evidence := Last(p.evidence + [iid], threshold));
      } else {
        p := p.(positive := p.positive + 1, streak := 0, evidence := []);
      }
      pairs := pairs[key := p];
    }

    /** Counts the outcomes of one merge request, the gates in any order. */
    method Record(m: Mr)
      modifies `pairs
      ensures pairs == Apply(old(pairs), m, threshold)
    {
      hide Applied, Last, Step, Get;
      ghost var was := pairs;
      ghost var done: set<string> := {};
      NothingApplied(pairs, m, threshold);
      var left := m.outcomes.Keys;
      while left != {}
        invariant done !! left && done + left == m.outcomes.Keys
        invariant pairs == Applied(was, m, done, threshold)
        decreases |left|
      {
        var gate :| gate in left;
        AppliedNext(was, m, done, gate, threshold);
        left := left - {gate};
        done := done + {gate};
        Count((gate, m.shape), m.outcomes[gate], m.iid);
      }
      assert done == m.outcomes.Keys;
    }
  }

  // ----- sorted batches

  predicate SortedMrs(ms: seq<Mr>) {
    forall i, j | 0 <= i < j < |ms| :: Precedes(ms[i], ms[j])
  }

  /** No two merge requests have the same merge time and number. */
  predicate DistinctMrs(ms: seq<Mr>) {
    forall i, j | 0 <= i < j < |ms| :: Precedes(ms[i], ms[j]) || Precedes(ms[j], ms[i])
  }

  lemma {:induction false} InsertSorts(m: Mr, ms: seq<Mr>)
    ensures forall x :: x in Insert(m, ms) <==> x == m || x in ms
    ensures SortedMrs(ms) && (forall x | x in ms :: Precedes(x, m) || Precedes(m, x)) ==> SortedMrs(Insert(m, ms))
  {
    if ms != [] && Precedes(ms[0], m) {
      InsertSorts(m, ms[1..]);
      var r := Insert(m, ms[1..]);
      if SortedMrs(ms) && forall x | x in ms :: Precedes(x, m) || Precedes(m, x) {
        assert forall i | 0 <= i < |r| :: r[i] in r;
      }
    } else {
      assert Insert(m, ms) == [m] + ms;
      assert forall i | 0 <= i < |ms| :: ms[i] in ms;
    }
  }

  lemma {:induction false} SortSorts(ms: seq<Mr>)
    ensures forall x :: x in Sort(ms) <==> x in ms
    ensures DistinctMrs(ms) ==> SortedMrs(Sort(ms))
  {
    if ms != [] {
      SortSorts(ms[1..]);
      InsertSorts(ms[0], Sort(ms[1..]));
    }
  }

  /** There is one way to sort. */
  lemma {:induction false} SortedUnique(a: seq<Mr>, b: seq<Mr>)
    requires SortedMrs(a) && SortedMrs(b) && forall x :: x in a <==> x in b
    ensures a == b
  {
    assert b != [] ==> b[0] in b;
    if a != [] {
      assert a[0] in b && b != [];
      assert b[0] in a;
      assert a[0] == b[0];
      forall x ensures x in a[1..] <==> x in b[1..] {
        assert x in a <==> x == a[0] || x in a[1..];
        assert x in b <==> x == b[0] || x in b[1..];
      }
      SortedUnique(a[1..], b[1..]);
    }
  }

  lemma {:induction false} FilterDistinct(ms: seq<Mr>, keep: Mr -> bool)
    requires DistinctMrs(ms)
    ensures DistinctMrs(Filter(ms, keep))
  {
    if ms != [] {
      var rest := Filter(ms[1..], keep);
      FilterDistinct(ms[1..], keep);
      forall x | x in rest ensures Precedes(ms[0], x) || Precedes(x, ms[0]) {
        FilterMembers(ms[1..], keep, x);
        var i :| 0 <= i < |ms[1..]| && ms[1..][i] == x;
        assert x == ms[i + 1];
      }
      assert forall i | 0 <= i < |rest| :: rest[i] in rest;
    }
  }

  /** A batch is the newer merge requests in order. */
  lemma BatchIs(s: State, mrs: seq<Mr>)
    requires DistinctMrs(mrs)
    ensures SortedMrs(Batch(s, mrs))
    ensures forall x :: x in Batch(s, mrs) <==> x in mrs && Newer(s.time, s.iid, x)
  {
    var keep := After(s.time, s.iid);
    var kept := Filter(mrs, keep);
    FilterDistinct(mrs, keep);
    SortSorts(kept);
    forall x ensures x in kept <==> x in mrs && Newer(s.time, s.iid, x) {
      FilterMembers(mrs, keep, x);
    }
  }

  // ----- batches and watermark, in merge times and numbers

  /** Merged later than the watermark says, or at its very time with a larger number. */
  ghost predicate IsFresh(s: State, m: Mr) {
    m.time > 0 && (m.time > s.time || (m.time == s.time && m.iid > s.iid))
  }

  /** Not merged later, and of two merged at one time not with the larger number. */
  ghost predicate NotAfter(a: Mr, b: Mr) {
    a.time <= b.time && (a.time == b.time ==> a.iid <= b.iid)
  }

  ghost predicate InSequence(ms: seq<Mr>) {
    forall i, j | 0 <= i < j < |ms| :: NotAfter(ms[i], ms[j])
  }

  lemma InSequenceFirst(m: Mr, rest: seq<Mr>)
    ensures InSequence([m] + rest) <==> InSequence(rest) && forall x | x in rest :: NotAfter(m, x)
  {
    hide NotAfter;
    var ms := [m] + rest;
    assert ms[0] == m && forall i | 0 < i < |ms| :: ms[i] == rest[i - 1];
    if InSequence(ms) {
      forall i, j | 0 <= i < j < |rest| ensures NotAfter(rest[i], rest[j]) {
        assert NotAfter(ms[i + 1], ms[j + 1]);
      }
      forall x | x in rest ensures NotAfter(m, x) {
        var i :| 0 <= i < |rest| && rest[i] == x;
        assert NotAfter(ms[0], ms[i + 1]);
      }
    }
  }

  lemma {:induction false} InsertInSequence(m: Mr, ms: seq<Mr>)
    requires InSequence(ms)
    ensures InSequence(Insert(m, ms)) && multiset(Insert(m, ms)) == multiset(ms) + multiset{m}
  {
    hide InSequence;
    if ms == [] {
      InSequenceFirst(m, []);
    } else {
      var first, rest := ms[0], ms[1..];
      assert ms == [first] + rest;
      InSequenceFirst(first, rest);
      if Precedes(first, m) {
        InsertInSequence(m, rest);
        forall x | x in Insert(m, rest) ensures NotAfter(first, x) {
          assert x in multiset(Insert(m, rest));
        }
        InSequenceFirst(first, Insert(m, rest));
      } else {
        assert forall x | x in rest :: NotAfter(m, x);
        InSequenceFirst(m, ms);
      }
    }
  }

  lemma {:induction false} SortInSequence(ms: seq<Mr>)
    ensures InSequence(Sort(ms)) && multiset(Sort(ms)) == multiset(ms)
  {
    if ms != [] {
      SortInSequence(ms[1..]);
      InsertInSequence(ms[0], Sort(ms[1..]));
      assert ms == [ms[0]] + ms[1..];
    }
  }

  lemma {:induction false} FilterCounts<T>(s: seq<T>, keep: T -> bool, x: T)
    ensures multiset(Filter(s, keep))[x] == if keep(x) then multiset(s)[x] else 0
  {
    if s != [] {
      FilterCounts(s[1..], keep, x);
      assert s == [s[0]] + s[1..];
    }
  }

  /** A fold takes in each merge request that is listed and fresh, as often as it is listed, and no
      other, in the order of merge times and, at one time, of numbers. */
  lemma BatchExact(s: State, mrs: seq<Mr>)
    ensures forall m :: multiset(Batch(s, mrs))[m] == if IsFresh(s, m) then multiset(mrs)[m] else 0
    ensures InSequence(Batch(s, mrs))
  {
    hide Filter, Sort;
    var kept := Filter(mrs, After(s.time, s.iid));
    SortInSequence(kept);
    forall m ensures multiset(kept)[m] == if IsFresh(s, m) then multiset(mrs)[m] else 0 {
      FilterCounts(mrs, After(s.time, s.iid), m);
    }
  }

  /** The watermark after a fold is the merge time and number of the last merge request taken in:
      none of them was merged later, nor at that time with a larger number; if there are none, it
      stays where it was. */
  lemma WatermarkExact(s: State, mrs: seq<Mr>)
    ensures var f := FoldOf(s, mrs);
      if forall m | m in mrs :: !IsFresh(s, m) then f.time == s.time && f.iid == s.iid
      else
        && (exists m :: m in mrs && IsFresh(s, m) && m.time == f.time && m.iid == f.iid)
        && forall m | m in mrs && IsFresh(s, m) :: m.time <= f.time && (m.time == f.time ==> m.iid <= f.iid)
  {
    hide Batch, Play, Lasting, IsFresh;
    BatchExact(s, mrs);
    var batch := Batch(s, mrs);
    forall m ensures m in batch <==> m in mrs && IsFresh(s, m) {
      assert m in batch <==> multiset(batch)[m] > 0;
      assert m in mrs <==> multiset(mrs)[m] > 0;
    }
    if batch == [] {
    } else {
      var last := batch[|batch| - 1];
      assert last in batch;
      forall m | m in batch ensures NotAfter(m, last) {
        var i :| 0 <= i < |batch| && batch[i] == m;
      }
    }
  }

  lemma {:induction false} PlayConcat(pairs: map<Key, Pair>, a: seq<Mr>, b: seq<Mr>, threshold: nat)
    ensures Play(pairs, a + b, threshold) == Play(Play(pairs, a, threshold), b, threshold)
  {
    if b == [] {
      assert a + b == a;
    } else {
      assert (a + b)[..|a + b| - 1] == a + b[..|b| - 1];
      PlayConcat(pairs, a, b[..|b| - 1], threshold);
    }
  }

  // ----- folding in parts

  /** What the second batch adds came after all that the first one held. */
  ghost predicate InOrder(s: State, first: seq<Mr>, second: seq<Mr>) {
    forall a, b | a in first && b in second && b !in first && Newer(s.time, s.iid, a) && Newer(s.time, s.iid, b) ::
      Precedes(a, b)
  }

  ghost predicate SameMrs(a: seq<Mr>, b: seq<Mr>) {
    forall m :: m in a <==> m in b
  }

  /** Equal but for proposals, of which the first state has no more. */
  predicate Agrees(s: State, t: State) {
    && s.time == t.time && s.iid == t.iid && s.threshold == t.threshold && s.pairs == t.pairs
    && forall k | k in s.proposed :: k in t.proposed
  }

  lemma BatchParts(s: State, first: seq<Mr>, second: seq<Mr>, all: seq<Mr>)
    requires DistinctMrs(first) && DistinctMrs(second) && DistinctMrs(all) && SameMrs(all, first + second)
    requires InOrder(s, first, second)
    ensures Batch(s, all) == Batch(s, first) + Batch(FoldOf(s, first), second)
  {
    hide Batch, Play, Lasting;
    var s1 := FoldOf(s, first);
    var a, b, c := Batch(s, first), Batch(s1, second), Batch(s, all);
    BatchIs(s, first);
    BatchIs(s1, second);
    BatchIs(s, all);
    if a != [] {
      assert a[|a| - 1] in a;
    }
    forall x ensures x in b <==> x in second && x !in first && Newer(s.time, s.iid, x) {
      if x in a {
        var i :| 0 <= i < |a| && a[i] == x;
        assert i < |a| - 1 ==> Precedes(x, a[|a| - 1]);
      }
    }
    forall x, y | x in a && y in b ensures Precedes(x, y) {}
    assert SortedMrs(a + b) by {
      forall i, j | 0 <= i < j < |a + b| ensures Precedes((a + b)[i], (a + b)[j]) {
        if i < |a| <= j {
          assert a[i] in a && b[j - |a|] in b;
        }
      }
    }
    SortedUnique(a + b, c);
  }

  /** Folding in two parts is folding at once, whatever the order within a part and however often
      the second part repeats the first. */
  lemma FoldTwice(s: State, first: seq<Mr>, second: seq<Mr>, all: seq<Mr>)
    requires DistinctMrs(first) && DistinctMrs(second) && DistinctMrs(all) && SameMrs(all, first + second)
    requires InOrder(s, first, second)
    ensures Agrees(FoldOf(FoldOf(s, first), second), FoldOf(s, all))
  {
    hide Batch, Play, Lasting;
    var s1 := FoldOf(s, first);
    var s2, t := FoldOf(s1, second), FoldOf(s, all);
    var a, b := Batch(s, first), Batch(s1, second);
    BatchParts(s, first, second, all);
    PlayConcat(s.pairs, a, b, s.threshold);
    assert b != [] ==> (a + b)[|a + b| - 1] == b[|b| - 1];
    forall k | k in s2.proposed ensures k in t.proposed {
      FilterMembers(s1.proposed, Lasting(s2.pairs, s.threshold), k);
      FilterMembers(s.proposed, Lasting(s1.pairs, s.threshold), k);
      FilterMembers(s.proposed, Lasting(t.pairs, s.threshold), k);
    }
  }

  lemma {:induction false} FilterAgain<T>(s: seq<T>, keep: T -> bool)
    ensures Filter(Filter(s, keep), keep) == Filter(s, keep)
  {
    if s != [] {
      FilterAgain(s[1..], keep);
      FilterConcat(if keep(s[0]) then [s[0]] else [], Filter(s[1..], keep), keep);
      assert [s[0]][1..] == [];
    }
  }

  /** Folding the same merge requests again, in any order, changes nothing. */
  lemma RefoldIsNothing(s: State, mrs: seq<Mr>, again: seq<Mr>)
    requires DistinctMrs(mrs) && DistinctMrs(again) && SameMrs(mrs, again)
    ensures FoldOf(FoldOf(s, mrs), again) == FoldOf(s, mrs)
  {
    hide Play, Lasting;
    var s1 := FoldOf(s, mrs);
    BatchParts(s, mrs, again, mrs);
    assert |Batch(s1, again)| == 0;
    assert Play(s1.pairs, [], s.threshold) == s1.pairs by { NothingPlayed(s1.pairs, s.threshold); }
    FilterAgain(s.proposed, Lasting(s1.pairs, s.threshold));
  }

  lemma NothingPlayed(pairs: map<Key, Pair>, threshold: nat)
    ensures Play(pairs, [], threshold) == pairs
  {}

  function FoldAll(s: State, batches: seq<seq<Mr>>): State {
    if batches == [] then s else FoldOf(FoldAll(s, batches[..|batches| - 1]), batches[|batches| - 1])
  }

  predicate InSome(batches: seq<seq<Mr>>, m: Mr) {
    exists i :: 0 <= i < |batches| && m in batches[i]
  }

  /** The batches of successive nights: what a batch adds came after all that was seen before. */
  ghost predicate Nightly(s: State, batches: seq<seq<Mr>>) {
    && (forall i | 0 <= i < |batches| :: DistinctMrs(batches[i]))
    && (forall i, a, b | 0 <= i < |batches| && InSome(batches[..i], a) && b in batches[i] && !InSome(batches[..i], b)
          && Newer(s.time, s.iid, a) && Newer(s.time, s.iid, b) :: Precedes(a, b))
  }

  lemma AgreesNext(s: State, t: State, mrs: seq<Mr>)
    requires Agrees(s, t)
    ensures Agrees(FoldOf(s, mrs), FoldOf(t, mrs))
  {
    hide Play, Lasting, Batch;
    assert Batch(s, mrs) == Batch(t, mrs) by { BatchDependsOnMark(s, t, mrs); }
    var keep := Lasting(FoldOf(t, mrs).pairs, t.threshold);
    forall k | k in FoldOf(s, mrs).proposed ensures k in FoldOf(t, mrs).proposed {
      FilterMembers(s.proposed, keep, k);
      FilterMembers(t.proposed, keep, k);
    }
  }

  lemma BatchDependsOnMark(s: State, t: State, mrs: seq<Mr>)
    requires s.time == t.time && s.iid == t.iid
    ensures Batch(s, mrs) == Batch(t, mrs)
  {}

  /** The order within a batch does not matter. */
  lemma AnyOrder(s: State, a: seq<Mr>, b: seq<Mr>)
    requires DistinctMrs(a) && DistinctMrs(b) && SameMrs(a, b)
    ensures FoldOf(s, a) == FoldOf(s, b)
  {
    hide Batch, Play, Lasting;
    BatchIs(s, a);
    BatchIs(s, b);
    SortedUnique(Batch(s, a), Batch(s, b));
  }

  function SeenIn(batches: seq<seq<Mr>>): Mr -> bool {
    (m: Mr) => InSome(batches, m)
  }

  /** Nightly batches add up to one fold of all they hold. */
  lemma {:induction false} NightsAreOneBatch(s: State, batches: seq<seq<Mr>>, all: seq<Mr>)
    requires batches != [] && Nightly(s, batches) && DistinctMrs(all)
    requires forall m :: m in all <==> InSome(batches, m)
    ensures Agrees(FoldAll(s, batches), FoldOf(s, all))
    decreases |batches|
  {
    hide FoldOf;
    var init, last := batches[..|batches| - 1], batches[|batches| - 1];
    assert forall m :: InSome(batches, m) <==> InSome(init, m) || m in last by {
      assert forall i | 0 <= i < |init| :: init[i] == batches[i];
    }
    if init == [] {
      assert DistinctMrs(batches[0]);
      AnyOrder(s, last, all);
      assert FoldAll(s, init) == s;
      assert Agrees(FoldOf(s, all), FoldOf(s, all));
    } else {
      var earlier := Filter(all, SeenIn(init));
      FilterDistinct(all, SeenIn(init));
      forall m ensures m in earlier <==> InSome(init, m) {
        FilterMembers(all, SeenIn(init), m);
      }
      NightlyPrefix(s, batches);
      NightsAreOneBatch(s, init, earlier);
      assert InOrder(s, earlier, last);
      FoldTwice(s, earlier, last, all);
      AgreesNext(FoldAll(s, init), FoldOf(s, earlier), last);
    }
  }

  lemma NightlyPrefix(s: State, batches: seq<seq<Mr>>)
    requires batches != [] && Nightly(s, batches)
    ensures Nightly(s, batches[..|batches| - 1])
  {
    var init := batches[..|batches| - 1];
    assert forall i | 0 <= i < |init| :: init[i] == batches[i] && init[..i] == batches[..i];
    forall i, a, b | 0 <= i < |init| && InSome(init[..i], a) && b in init[i] && !InSome(init[..i], b)
        && Newer(s.time, s.iid, a) && Newer(s.time, s.iid, b)
      ensures Precedes(a, b)
    {
      assert init[..i] == batches[..i];
    }
  }

  // ----- what the state says about the history

  type Event = (Outcome, int)

  /** The outcomes of a pair in a history, with the merge request each comes from. */
  function Events(ms: seq<Mr>, k: Key): seq<Event> {
    if ms == [] then []
    else
      var m := ms[|ms| - 1];
      Events(ms[..|ms| - 1], k) + if k.1 == m.shape && k.0 in m.outcomes then [(m.outcomes[k.0], m.iid)] else []
  }

  /** How many of the last outcomes in a row found nothing. */
  function TrailingZeros(ev: seq<Event>): (n: nat)
    ensures n <= |ev|
  {
    if ev == [] || ev[|ev| - 1].0 == Positive then 0 else TrailingZeros(ev[..|ev| - 1]) + 1
  }

  lemma {:induction false} TrailingAre(ev: seq<Event>)
    ensures forall i | |ev| - TrailingZeros(ev) <= i < |ev| :: ev[i].0 == Zero
    ensures TrailingZeros(ev) < |ev| ==> ev[|ev| - TrailingZeros(ev) - 1].0 == Positive
  {
    if ev != [] && ev[|ev| - 1].0 == Zero {
      var init := ev[..|ev| - 1];
      TrailingAre(init);
      assert forall i | 0 <= i < |init| :: ev[i] == init[i];
    }
  }

  function CountOf(ev: seq<Event>, o: Outcome): nat {
    if ev == [] then 0 else CountOf(ev[..|ev| - 1], o) + if ev[|ev| - 1].0 == o then 1 else 0
  }

  function Iids(ev: seq<Event>): (r: seq<int>)
    ensures |r| == |ev| && forall i | 0 <= i < |r| :: r[i] == ev[i].1
  {
    if ev == [] then [] else Iids(ev[..|ev| - 1]) + [ev[|ev| - 1].1]
  }

  /** A pair as a summary of its outcomes: the streak is the trailing run of zeros, its evidence the
      last `threshold` merge requests of that run. */
  predicate Summarizes(p: Pair, ev: seq<Event>, threshold: nat) {
    && p.runs == |ev| && p.runs == p.zero + p.positive
    && p.zero == CountOf(ev, Zero) && p.positive == CountOf(ev, Positive)
    && p.streak == TrailingZeros(ev)
    && p.evidence == Last(Iids(ev[|ev| - TrailingZeros(ev)..]), threshold)
  }

  lemma SummaryStep(p: Pair, ev: seq<Event>, e: Event, threshold: nat)
    requires Summarizes(p, ev, threshold)
    ensures Summarizes(Step(p, e.0, e.1, threshold), ev + [e], threshold)
  {
    hide Last, Iids;
    var next := ev + [e];
    assert next[..|next| - 1] == ev;
    if e.0 == Zero {
      EvidenceStep(ev, e, |ev| - TrailingZeros(ev), threshold);
    } else {
      assert next[|next|..] == [];
      NoEvidence(threshold);
    }
  }

  lemma NoEvidence(threshold: nat)
    ensures Last(Iids([]), threshold) == []
  {}

  lemma EvidenceStep(ev: seq<Event>, e: Event, n: nat, threshold: nat)
    requires n <= |ev|
    ensures Last(Iids((ev + [e])[n..]), threshold) == Last(Last(Iids(ev[n..]), threshold) + [e.1], threshold)
  {
    hide Last;
    assert (ev + [e])[n..] == ev[n..] + [e];
    IidsSnoc(ev[n..], e);
    LastStep(Iids(ev[n..]), e.1, threshold);
  }

  lemma IidsSnoc(ev: seq<Event>, e: Event)
    ensures Iids(ev + [e]) == Iids(ev) + [e.1]
  {}

  lemma LastStep(xs: seq<int>, x: int, n: nat)
    ensures Last(Last(xs, n) + [x], n) == Last(xs + [x], n)
  {
    if 0 < n <= |xs| {
      assert Last(xs, n) == xs[|xs| - n..];
      assert (xs[|xs| - n..] + [x])[1..] == xs[|xs| - n + 1..] + [x];
      assert (xs + [x])[|xs| + 1 - n..] == xs[|xs| - n + 1..] + [x];
    }
  }

  /** Playing a history from nothing gives each pair with outcomes the summary of them. */
  lemma {:induction false} PlaySummarizes(ms: seq<Mr>, k: Key, threshold: nat)
    ensures k in Play(map[], ms, threshold) <==> Events(ms, k) != []
    ensures Summarizes(Get(Play(map[], ms, threshold), k), Events(ms, k), threshold)
  {
    hide Summarizes, Step;
    if ms == [] {
      assert Summarizes(FRESH, [], threshold) by { NothingSummarized(threshold); }
    } else {
      var init, m := ms[..|ms| - 1], ms[|ms| - 1];
      PlaySummarizes(init, k, threshold);
      if k.1 == m.shape && k.0 in m.outcomes {
        SummaryStep(Get(Play(map[], init, threshold), k), Events(init, k), (m.outcomes[k.0], m.iid), threshold);
        assert k in TouchedBy(m);
      } else {
        assert Events(ms, k) == Events(init, k);
      }
      ApplyGet(Play(map[], init, threshold), m, threshold, k);
    }
  }

  function TouchedBy(m: Mr): set<Key> { set g | g in m.outcomes :: (g, m.shape) }

  lemma ApplyGet(pairs: map<Key, Pair>, m: Mr, threshold: nat, k: Key)
    ensures var touched := k.1 == m.shape && k.0 in m.outcomes;
      && (k in Apply(pairs, m, threshold) <==> k in pairs || touched)
      && Get(Apply(pairs, m, threshold), k) == if touched then Step(Get(pairs, k), m.outcomes[k.0], m.iid, threshold)
        else Get(pairs, k)
  {
    hide Step;
    if k.1 == m.shape && k.0 in m.outcomes {
      assert k == (k.0, m.shape);
    }
  }

  lemma NothingSummarized(threshold: nat)
    ensures Summarizes(FRESH, [], threshold)
  {}

  function Empty(threshold: nat): State { State(0, 0, threshold, map[], []) }

  /** The merge requests that the folds took in, in the order they were taken. */
  function Taken(s: State, batches: seq<seq<Mr>>): seq<Mr> {
    if batches == [] then []
    else
      var init := batches[..|batches| - 1];
      Taken(s, init) + Batch(FoldAll(s, init), batches[|batches| - 1])
  }

  lemma {:induction false} FoldAllPlays(s: State, batches: seq<seq<Mr>>)
    ensures FoldAll(s, batches).pairs == Play(s.pairs, Taken(s, batches), s.threshold)
    ensures FoldAll(s, batches).threshold == s.threshold
  {
    hide Play, Batch, Lasting;
    if batches == [] {
      NothingPlayed(s.pairs, s.threshold);
    } else {
      var init, last := batches[..|batches| - 1], batches[|batches| - 1];
      FoldAllPlays(s, init);
      PlayConcat(s.pairs, Taken(s, init), Batch(FoldAll(s, init), last), s.threshold);
    }
  }

  /** After any folds of any lists, every pair is the summary of its outcomes in the merge requests
      that were taken in: so in every state there is. */
  lemma StateIsHistory(threshold: nat, batches: seq<seq<Mr>>, k: Key)
    ensures var pairs, ev := FoldAll(Empty(threshold), batches).pairs, Events(Taken(Empty(threshold), batches), k);
      (k in pairs <==> ev != []) && Summarizes(Get(pairs, k), ev, threshold)
  {
    hide Summarizes, FoldAll, Taken;
    FoldAllPlays(Empty(threshold), batches);
    PlaySummarizes(Taken(Empty(threshold), batches), k, threshold);
  }

  /** After nightly batches that is the whole history, in order. */
  lemma StateIsWholeHistory(threshold: nat, batches: seq<seq<Mr>>, all: seq<Mr>, k: Key)
    requires batches != [] && Nightly(Empty(threshold), batches) && DistinctMrs(all)
    requires forall m :: m in all <==> InSome(batches, m)
    ensures var pairs, ev := FoldAll(Empty(threshold), batches).pairs, Events(Batch(Empty(threshold), all), k);
      (k in pairs <==> ev != []) && Summarizes(Get(pairs, k), ev, threshold)
  {
    hide Summarizes, Batch, FoldAll, Nightly, InSome;
    NightsAreOneBatch(Empty(threshold), batches, all);
    PlaySummarizes(Batch(Empty(threshold), all), k, threshold);
  }

  /** The evidence is as long as the streak up to the threshold; a threshold of 0 keeps all of it. */
  lemma EvidenceLength(p: Pair, ev: seq<Event>, threshold: nat)
    requires Summarizes(p, ev, threshold)
    ensures |p.evidence| == if threshold > 0 && threshold < p.streak then threshold else p.streak
    ensures |p.evidence| <= threshold <==> threshold > 0 || p.streak == 0
  {}

  // ----- candidates

  /** Over the threshold, not proposed yet and not declined. */
  predicate Candidate(s: State, declined: set<string>, k: Key) {
    k in s.pairs && s.pairs[k].streak >= s.threshold && k !in s.proposed && k.0 !in declined
  }

  /** A pair is raised exactly if it has outcomes and its last `threshold` ones found nothing, unless
      it was proposed or its gate declined. */
  lemma CandidateExact(s: State, ev: seq<Event>, declined: set<string>, k: Key)
    requires k in s.pairs <==> ev != []
    requires Summarizes(Get(s.pairs, k), ev, s.threshold)
    ensures Candidate(s, declined, k) <==>
      && ev != [] && |ev| >= s.threshold && (forall i | |ev| - s.threshold <= i < |ev| :: ev[i].0 == Zero)
      && k !in s.proposed && k.0 !in declined
  {
    var n := TrailingZeros(ev);
    TrailingAre(ev);
    if n < s.threshold <= |ev| {
      assert ev[|ev| - n - 1].0 == Positive;
    }
  }
}
