/** How the weekly mutation job is split over CI jobs (`backend/mutmut_config.py`). */
module MutationPlan {
  import opened Common

  /** The line range to mutate, or the whole file. */
  type Scope = Option<(int, int)>

  /** A target with the line range of its class, if it has one. */
  datatype Target = Target(name: string, shards: nat, scope: Scope)

  // ----- jobs to (target, shard) pairs

  function TotalShards(targets: seq<Target>): nat {
    if targets == [] then 0 else targets[0].shards + TotalShards(targets[1..])
  }

  function TargetSlots(t: Target, from: nat): seq<(Target, nat)>
    decreases t.shards - from
  {
    if from >= t.shards then [] else [(t, from)] + TargetSlots(t, from + 1)
  }

  /** Every (target, shard) pair in the order of the table. */
  function Slots(targets: seq<Target>): seq<(Target, nat)> {
    if targets == [] then [] else TargetSlots(targets[0], 0) + Slots(targets[1..])
  }

  datatype SlotError = WrongTotal | OutOfRange

  lemma {:induction false} TargetSlotsAt(t: Target, from: nat)
    requires from <= t.shards
    ensures |TargetSlots(t, from)| == t.shards - from
    ensures forall i | 0 <= i < t.shards - from :: TargetSlots(t, from)[i] == (t, from + i)
    decreases t.shards - from
  {
    if from < t.shards {
      TargetSlotsAt(t, from + 1);
    }
  }

  lemma {:induction false} SlotsLength(targets: seq<Target>)
    ensures |Slots(targets)| == TotalShards(targets)
  {
    if targets != [] {
      TargetSlotsAt(targets[0], 0);
      SlotsLength(targets[1..]);
    }
  }

  /** Job `nodeIndex` of `nodeTotal` gets the pair at its place in the list of all pairs. */
  method Slot(targets: seq<Target>, nodeIndex: int, nodeTotal: int) returns (slot: Result<(Target, nat), SlotError>)
    ensures nodeTotal != TotalShards(targets) ==> slot == Err(WrongTotal)
    ensures nodeTotal == TotalShards(targets) && !(1 <= nodeIndex <= nodeTotal) ==> slot == Err(OutOfRange)
    ensures nodeTotal == TotalShards(targets) && 1 <= nodeIndex <= nodeTotal ==>
      nodeIndex <= |Slots(targets)| && slot == Ok(Slots(targets)[nodeIndex - 1])
  {
    if nodeTotal != TotalShards(targets) {
      return Err(WrongTotal);
    }
    if !(1 <= nodeIndex <= nodeTotal) {
      return Err(OutOfRange);
    }
    SlotsLength(targets);
    var offset := nodeIndex - 1;
    var i := 0;
    while i < |targets|
      invariant 0 <= i <= |targets| && 0 <= offset < TotalShards(targets[i..])
      invariant |Slots(targets[i..])| == TotalShards(targets[i..])
      invariant Slots(targets[i..])[offset] == Slots(targets)[nodeIndex - 1]
    {
      TargetSlotsAt(targets[i], 0);
      if offset < targets[i].shards {
        return Ok((targets[i], offset));
      }
      offset := offset - targets[i].shards;
      assert targets[i..][1..] == targets[i + 1..];
      SlotsLength(targets[i + 1..]);
      i := i + 1;
    }
    assert false;
    return Err(OutOfRange);
  }

  lemma {:induction false} SlotsMembers(targets: seq<Target>, t: Target, s: nat)
    ensures (t, s) in Slots(targets) <==> t in targets && s < t.shards
  {
    if targets != [] {
      TargetSlotsAt(targets[0], 0);
      SlotsMembers(targets[1..], t, s);
      if t == targets[0] && s < t.shards {
        assert TargetSlots(t, 0)[s] == (t, s);
      }
    }
  }

  lemma {:induction false} SlotsDistinct(targets: seq<Target>)
    requires forall i, j | 0 <= i < j < |targets| :: targets[i] != targets[j]
    ensures forall i, j | 0 <= i < j < |Slots(targets)| :: Slots(targets)[i] != Slots(targets)[j]
  {
    if targets != [] {
      var head, tail := TargetSlots(targets[0], 0), Slots(targets[1..]);
      TargetSlotsAt(targets[0], 0);
      SlotsDistinct(targets[1..]);
      forall i, j | 0 <= i < |head| && 0 <= j < |tail| ensures head[i] != tail[j] {
        var (t, s) := tail[j];
        assert tail[j] in tail;
        SlotsMembers(targets[1..], t, s);
      }
      assert forall i | |head| <= i < |head| + |tail| :: Slots(targets)[i] == tail[i - |head|];
    }
  }

  /** Jobs 1..total and (target, shard) pairs correspond one to one. */
  lemma SlotBijection(targets: seq<Target>)
    requires forall i, j | 0 <= i < j < |targets| :: targets[i] != targets[j]
    ensures |Slots(targets)| == TotalShards(targets)
    ensures forall t, s: nat | t in targets && s < t.shards ::
      exists i :: 0 <= i < |Slots(targets)| && Slots(targets)[i] == (t, s)
    ensures forall i, j | 0 <= i < j < |Slots(targets)| :: Slots(targets)[i] != Slots(targets)[j]
  {
    SlotsLength(targets);
    SlotsDistinct(targets);
    forall t, s: nat | t in targets && s < t.shards
      ensures exists i :: 0 <= i < |Slots(targets)| && Slots(targets)[i] == (t, s)
    {
      SlotsMembers(targets, t, s);
    }
  }

  // ----- dealing a target's mutants

  type Mutant = (int, int)

  predicate Before(a: Mutant, b: Mutant) {
    a.0 < b.0 || (a.0 == b.0 && a.1 <= b.1)
  }

  predicate InRange(m: Mutant, scope: Scope) {
    scope.None? || scope.value.0 <= m.0 <= scope.value.1
  }

  predicate First(m: Mutant, s: set<Mutant>) {
    m in s && forall x | x in s :: Before(m, x)
  }

  lemma {:induction false} FirstExists(s: set<Mutant>)
    requires s != {}
    ensures exists m :: First(m, s)
  {
    var m :| m in s;
    if s == {m} {
      assert First(m, s);
    } else {
      FirstExists(s - {m});
      var n :| First(n, s - {m});
      assert forall x | x in s :: x == m || x in s - {m};
      assert if Before(m, n) then First(m, s) else First(n, s);
    }
  }

  function Sorted(s: set<Mutant>): (r: seq<Mutant>)
    ensures |r| == |s|
    ensures forall m :: m in r <==> m in s
    ensures forall i, j | 0 <= i < j < |r| :: r[i] != r[j]
  {
    if s == {} then []
    else
      FirstExists(s);
      var m :| First(m, s);
      [m] + Sorted(s - {m})
  }

  function Within(mutants: set<Mutant>, scope: Scope): set<Mutant> {
    set m | m in mutants && InRange(m, scope)
  }

  /** The first `n` mutants of `order`, dealt round-robin. */
  function Dealt(order: seq<Mutant>, n: nat, shards: nat): map<Mutant, nat>
    requires n <= |order| && shards > 0
  {
    if n == 0 then map[] else Dealt(order, n - 1, shards)[order[n - 1] := (n - 1) % shards]
  }

  function Assignment(t: Target, mutants: set<Mutant>): map<Mutant, nat>
    requires t.shards > 0
  {
    var order := Sorted(Within(mutants, t.scope));
    Dealt(order, |order|, t.shards)
  }

  method Assign(t: Target, mutants: set<Mutant>) returns (assignment: map<Mutant, nat>)
    requires t.shards > 0
    ensures assignment == Assignment(t, mutants)
  {
    var order := Sorted(Within(mutants, t.scope));
    assignment := map[];
    for i := 0 to |order|
      invariant assignment == Dealt(order, i, t.shards)
    {
      assignment := assignment[order[i] := i % t.shards];
    }
  }

  /** How many of `0..n-1` leave remainder `k`. */
  function Count(n: nat, shards: nat, k: nat): nat
    requires shards > 0
  {
    if n == 0 then 0 else Count(n - 1, shards, k) + if (n - 1) % shards == k then 1 else 0
  }

  lemma {:induction false} CountIs(n: nat, shards: nat, k: nat)
    requires k < shards
    ensures Count(n, shards, k) == n / shards + if k < n % shards then 1 else 0
  {
    if n > 0 {
      CountIs(n - 1, shards, k);
      ShareGrows(n - 1, shards, k);
    } else {
      ShareOfNothing(shards);
    }
  }

  lemma ShareOfNothing(d: nat)
    requires d > 0
    ensures 0 / d == 0 && 0 % d == 0
  {
  }

  lemma ShareGrows(n: nat, d: nat, k: nat)
    requires k < d
    ensures (n + 1) / d + (if k < (n + 1) % d then 1 else 0)
         == n / d + (if k < n % d then 1 else 0) + (if n % d == k then 1 else 0)
  {
    DivStep(n, d);
  }

  lemma DivStep(n: nat, d: nat)
    requires d > 0
    ensures n % d == d - 1 ==> (n + 1) / d == n / d + 1 && (n + 1) % d == 0
    ensures n % d < d - 1 ==> (n + 1) / d == n / d && (n + 1) % d == n % d + 1
  {
    var q, r := n / d, n % d;
    assert n == q * d + r;
    if r == d - 1 {
      assert n + 1 == (q + 1) * d by { assert (q + 1) * d == q * d + d; }
      DivExact(q + 1, d, 0, n + 1);
    } else {
      DivExact(q, d, r + 1, n + 1);
    }
  }

  lemma DivExact(q: nat, d: nat, r: nat, n: nat)
    requires r < d && n == q * d + r
    ensures n / d == q && n % d == r
  {
    var q', r' := n / d, n % d;
    var gap := q - q';
    assert n == q' * d + r';
    assert gap * d == r' - r by {
      assert gap * d == q * d - q' * d;
    }
    if gap >= 1 {
      AtLeast(gap, d);
    } else if gap <= -1 {
      AtLeast(-gap, d);
    }
  }

  lemma AtLeast(x: int, d: nat)
    requires x >= 1
    ensures x * d >= d
  {
    if x > 1 {
      AtLeast(x - 1, d);
      assert x * d == (x - 1) * d + d;
    }
  }

  /** The mutants that shard `k` runs. */
  function Share(assignment: map<Mutant, nat>, k: nat): set<Mutant> {
    set m | m in assignment && assignment[m] == k
  }

  lemma {:induction false} DealtShare(order: seq<Mutant>, n: nat, shards: nat, k: nat)
    requires n <= |order| && shards > 0 && forall i, j | 0 <= i < j < |order| :: order[i] != order[j]
    ensures Dealt(order, n, shards).Keys == set i | 0 <= i < n :: order[i]
    ensures |Share(Dealt(order, n, shards), k)| == Count(n, shards, k)
    ensures forall m | m in Dealt(order, n, shards) :: Dealt(order, n, shards)[m] < shards
  {
    if n > 0 {
      DealtShare(order, n - 1, shards, k);
      DealOne(Dealt(order, n - 1, shards), order[n - 1], (n - 1) % shards, k);
    }
  }

  /** One more mutant dealt goes to one share. */
  lemma DealOne(deal: map<Mutant, nat>, m: Mutant, to: nat, k: nat)
    requires m !in deal
    ensures |Share(deal[m := to], k)| == |Share(deal, k)| + if to == k then 1 else 0
  {
    assert Share(deal[m := to], k) == if to == k then Share(deal, k) + {m} else Share(deal, k);
  }

  /** Round-robin dealing is fair: every mutant in range is dealt to one shard and no other mutant
      is, and no shard has two mutants more than another. */
  lemma FairDeal(t: Target, mutants: set<Mutant>, j: nat, k: nat)
    requires j < t.shards && k < t.shards
    ensures Assignment(t, mutants).Keys == Within(mutants, t.scope)
    ensures forall m | m in Assignment(t, mutants) :: Assignment(t, mutants)[m] < t.shards
    ensures |Share(Assignment(t, mutants), j)| <= |Share(Assignment(t, mutants), k)| + 1
  {
    var order := Sorted(Within(mutants, t.scope));
    DealtShare(order, |order|, t.shards, j);
    DealtShare(order, |order|, t.shards, k);
    CountIs(|order|, t.shards, j);
    CountIs(|order|, t.shards, k);
    assert forall m | m in Within(mutants, t.scope) :: m in order;
  }

  // ----- the hook

  /** This process's part of the work. Without an assignment a hand run splits by line. */
  datatype Active = Active(shard: Option<nat>, shards: nat, assignment: Option<map<Mutant, nat>>)

  predicate Skip(a: Active, m: Mutant)
    requires a.assignment.None? ==> a.shard.Some?
  {
    if a.assignment.Some? && a.shard.None? then m !in a.assignment.value
    else if a.assignment.Some? then !(m in a.assignment.value && a.assignment.value[m] == a.shard.value)
    else a.shards > 1 && m.0 % a.shards != a.shard.value
  }

  /** Shard `k` runs the mutant and no other shard does. */
  ghost predicate RunsOnlyIn(t: Target, deal: Option<map<Mutant, nat>>, m: Mutant, k: nat)
    requires deal.Some?
  {
    forall j: nat :: !Skip(Active(Some(j), t.shards, deal), m) <==> j == k
  }

  /** A target without a class has all its lines in range, one with a class the lines from its
      first to its last. */
  ghost predicate InLines(scope: Scope, line: int) {
    match scope
    case None => true
    case Some((first, last)) => !(line < first) && !(line > last)
  }

  /** Under the job driver each mutant in range runs in exactly one shard, and one out of range
      in none; a hand run of the target runs exactly those in range. */
  lemma ExactlyOneShardRuns(t: Target, mutants: set<Mutant>, m: Mutant)
    requires t.shards > 0 && m in mutants
    ensures var deal, inRange := Some(Assignment(t, mutants)), InLines(t.scope, m.0);
      && (inRange ==> exists k: nat :: k < t.shards && RunsOnlyIn(t, deal, m, k))
      && (!inRange ==> forall k: nat :: Skip(Active(Some(k), t.shards, deal), m))
      && (Skip(Active(None, t.shards, deal), m) <==> !inRange)
  {
    var deal := Assignment(t, mutants);
    FairDeal(t, mutants, 0, 0);
    if InRange(m, t.scope) {
      var k := deal[m];
      assert RunsOnlyIn(t, Some(deal), m, k);
    }
  }

  /** A hand run without a target deals by line: of `shards` shards, shard `k` runs the mutants of
      the lines `k`, `k + shards`, `k + 2 * shards` and so on, and no other shard does. */
  lemma HandRunByLine(shards: nat, k: nat, j: nat, round: nat, index: int)
    requires k < shards && j < shards
    ensures Skip(Active(Some(j), shards, None), (round * shards + k, index)) <==> j != k
  {
    DivExact(round, shards, k, round * shards + k);
  }
}
