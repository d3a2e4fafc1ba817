/** The plan for a cost record, told from the notes alone: which note is rewritten, which number
    the record gets, and why its running total is not stated, if it is not. */
module CostPlans {
  import opened Common
  import opened CostLedger

  // ----- which note, and which number

  /** The note is a readable follow-up of just this window. */
  ghost predicate IsFor(n: Note, since: Time, until: Time) {
    && n.k.Some? && n.k.value >= 2
    && n.rec.Some? && n.rec.value.start == Some(since) && n.rec.value.end == Some(until)
  }

  /** Every other note has no number or a smaller one. */
  ghost predicate AloneOnTop(own: seq<Note>, i: nat) {
    i < |own| && own[i].k.Some?
    && forall j | 0 <= j < |own| && j != i && own[j].k.Some? :: own[j].k.value < own[i].k.value
  }

  /** The least number from 2 on that is above all numbers and above how many notes there are. */
  ghost predicate IsNext(own: seq<Note>, k: nat) {
    Fits(own, k) && forall j: nat | Fits(own, j) :: k <= j
  }

  ghost predicate Fits(own: seq<Note>, k: nat) {
    k >= 2 && k > |own| && forall i | 0 <= i < |own| && own[i].k.Some? :: own[i].k.value < k
  }

  lemma WindowExact(n: Note, since: Time, until: Time)
    ensures HasWindow(n, since, until) <==> IsFor(n, since, until)
  {}

  /** The note that alone is on top is the latest, if it has a number from 1 on. */
  lemma LatestExact(own: seq<Note>, i: nat)
    requires AloneOnTop(own, i) && own[i].k.value >= 1
    ensures Latest(own) == Some(own[i])
  {
    var keep := (n: Note) => NumberOf(n) == Top(own);
    assert Top(own) == own[i].k.value;
    assert forall j | 0 <= j < |own| && j != i :: !keep(own[j]);
    OneKept(own, keep, i);
  }

  lemma {:induction false} OneKept(own: seq<Note>, keep: Note -> bool, i: nat)
    requires i < |own| && keep(own[i]) && forall j | 0 <= j < |own| && j != i :: !keep(own[j])
    ensures Filter(own, keep) == [own[i]]
  {
    if i > 0 {
      assert forall j | 0 <= j < |own[1..]| :: own[1..][j] == own[j + 1];
      OneKept(own[1..], keep, i - 1);
    } else {
      NoneLeft(own[1..], keep);
    }
  }

  lemma {:induction false} NoneLeft(own: seq<Note>, keep: Note -> bool)
    requires forall j | 0 <= j < |own| :: !keep(own[j])
    ensures Filter(own, keep) == []
  {
    if own != [] {
      NoneLeft(own[1..], keep);
    }
  }

  lemma NextExact(own: seq<Note>)
    ensures IsNext(own, Max(Max(Top(own), |own|) + 1, 2))
  {
    var k := Max(Max(Top(own), |own|) + 1, 2);
    forall j: nat | Fits(own, j) ensures k <= j {
      if Top(own) > 0 {
        var i :| 0 <= i < |own| && NumberOf(own[i]) == Top(own);
      }
    }
    forall i | 0 <= i < |own| && own[i].k.Some? ensures own[i].k.value < k {
      assert NumberOf(own[i]) <= Top(own);
    }
  }

  /** The plan: rewrite the note that alone is on top if it is for this window, refuse if another
      note is, and otherwise post a record with the next number; the running total is that of all
      other notes. */
  lemma PlanExact(own: seq<Note>, since: Time, until: Time)
    ensures var asked := exists i :: 0 <= i < |own| && IsFor(own[i], since, until);
      match PlanFor(own, since, until)
      case Refused => asked && forall i: nat | AloneOnTop(own, i) :: !IsFor(own[i], since, until)
      case Planned(Some(t), k, prior) =>
        && prior == PriorOf(Without(own, Some(t)), k, since)
        && exists i: nat ::
             AloneOnTop(own, i) && IsFor(own[i], since, until) && own[i].id == t && own[i].k == Some(k)
      case Planned(None, k, prior) => !asked && IsNext(own, k) && prior == PriorOf(own, k, since)
  {
    hide PriorOf, Without, Latest, HasWindow, IsFor, Top;
    var plan := PlanFor(own, since, until);
    forall i | 0 <= i < |own| ensures HasWindow(own[i], since, until) <==> IsFor(own[i], since, until) {
      WindowExact(own[i], since, until);
    }
    if plan.Planned? && plan.target.Some? {
      var i := RewritesOnlyLatest(own, since, until);
      assert AloneOnTop(own, i);
    } else {
      forall i: nat | AloneOnTop(own, i) ensures !IsFor(own[i], since, until) {
        if IsFor(own[i], since, until) {
          assert own[i].k.value >= 2 by { NumberOfFor(own[i], since, until); }
          LatestExact(own, i);
        }
      }
      if plan.Planned? {
        NextExact(own);
      }
    }
  }

  lemma NumberOfFor(n: Note, since: Time, until: Time)
    requires IsFor(n, since, until)
    ensures n.k.Some? && n.k.value >= 2
  {}

  /** Record 1: posted if the user has no record yet, rewritten if it is the only one and was read
      back, refused otherwise. */
  lemma UpsertExact(own: seq<Note>)
    ensures match UpsertFor(own)
      case Post => own == []
      case Put(id) => |own| == 1 && own[0].id == id && own[0].rec.Some? && own[0].k in {Some(0), Some(1)}
      case UpsertRefused =>
        || |own| > 1
        || (|own| == 1 && (own[0].rec.None? || own[0].k.None? || own[0].k.value > 1))
  {
  }

  // ----- why there is no running total

  /** A note whose number or content could not be read. */
  ghost predicate SomeUnread(notes: seq<Note>) {
    exists n :: n in notes && (n.k == None || n.rec == None)
  }

  /** The notes have the numbers 1 to `k - 1`, each once. */
  ghost predicate Exactly(notes: seq<Note>, k: nat) {
    && |notes| == Max(k - 1, 0)
    && (forall i | 0 <= i < |notes| :: notes[i].k.Some? && 1 <= notes[i].k.value < k)
    && forall i, j | 0 <= i < j < |notes| :: notes[i].k != notes[j].k
  }

  /** `recs` are the records of the notes, in the order of their numbers. */
  ghost predicate Listed(notes: seq<Note>, recs: seq<Rec>) {
    && |recs| == |notes|
    && forall i | 0 <= i < |recs| :: recs[i].k == i + 1 && exists n :: n in notes && n.rec == Some(recs[i])
  }

  /** What is wrong with a record and the next one: it states no end, or the next starts before it. */
  ghost predicate Wrong(a: Rec, b: Rec, r: Reason) {
    match a.end
    case None => r == NoEnd(a.k)
    case Some(end) => b.start.Some? && b.start.value < end && r == Overlap(b.k)
  }

  ghost predicate SomethingWrong(a: Rec, b: Rec) {
    a.end == None || (b.start.Some? && b.start.value < a.end.value)
  }

  /** The first pair of neighbours with something wrong is the reason. */
  ghost predicate FirstWrong(recs: seq<Rec>, r: Reason) {
    exists i :: FirstWrongAt(recs, r, i)
  }

  ghost predicate FirstWrongAt(recs: seq<Rec>, r: Reason, i: int) {
    && 0 <= i < |recs| - 1 && Wrong(recs[i], recs[i + 1], r)
    && forall j | 0 <= j < i :: !SomethingWrong(recs[j], recs[j + 1])
  }

  ghost predicate InLine(recs: seq<Rec>) {
    forall i | 0 <= i < |recs| - 1 :: !SomethingWrong(recs[i], recs[i + 1])
  }

  lemma {:induction false} FirstReasonExact(recs: seq<Rec>, r: Reason)
    ensures FirstReason(recs) == Some(r) <==> FirstWrong(recs, r)
    ensures FirstReason(recs) == None <==> InLine(recs)
  {
    if |recs| >= 2 {
      var rest := recs[1..];
      FirstReasonExact(rest, r);
      assert forall i | 0 <= i < |rest| :: rest[i] == recs[i + 1];
      if !SomethingWrong(recs[0], recs[1]) {
        if i :| FirstWrongAt(rest, r, i) {
          forall j | 0 <= j < i + 1 ensures !SomethingWrong(recs[j], recs[j + 1]) {
            assert j > 0 ==> recs[j] == rest[j - 1] && recs[j + 1] == rest[j];
          }
          assert FirstWrongAt(recs, r, i + 1);
        }
        if i :| FirstWrongAt(recs, r, i) {
          assert i > 0;
          assert FirstWrongAt(rest, r, i - 1);
        }
        if InLine(rest) {
          forall i | 0 <= i < |recs| - 1 ensures !SomethingWrong(recs[i], recs[i + 1]) {
            assert i > 0 ==> recs[i] == rest[i - 1] && recs[i + 1] == rest[i];
          }
        }
      } else {
        assert FirstWrong(recs, r) <==> FirstWrongAt(recs, r, 0);
      }
    }
  }

  lemma {:induction false} NumberCounts(notes: seq<Note>, j: nat)
    ensures multiset(Numbers(notes))[j] > 0 <==> exists i :: 0 <= i < |notes| && notes[i].k == Some(j)
    ensures multiset(Numbers(notes))[j] > 1 ==> exists i, l :: 0 <= i < l < |notes| && notes[i].k == notes[l].k
  {
    NumbersIn(notes, j);
    if notes != [] {
      var rest := notes[1..];
      NumberCounts(rest, j);
      NumbersIn(rest, j);
      assert Numbers(notes) == (if notes[0].k.Some? then [notes[0].k.value] else []) + Numbers(rest);
      assert forall i | 0 <= i < |rest| :: rest[i] == notes[i + 1];
      if multiset(Numbers(notes))[j] > 1 {
        if notes[0].k == Some(j) {
          var l :| 0 <= l < |rest| && rest[l].k == Some(j);
          assert notes[0].k == notes[l + 1].k;
        } else {
          var i, l :| 0 <= i < l < |rest| && rest[i].k == rest[l].k;
          assert notes[i + 1].k == notes[l + 1].k;
        }
      }
    }
  }

  lemma {:induction false} Doubled(notes: seq<Note>, i: nat, l: nat)
    requires i < l < |notes| && notes[i].k.Some? && notes[i].k == notes[l].k
    ensures multiset(Numbers(notes))[notes[i].k.value] > 1
  {
    var rest, j := notes[1..], notes[i].k.value;
    assert Numbers(notes) == (if notes[0].k.Some? then [notes[0].k.value] else []) + Numbers(rest);
    assert rest[l - 1] == notes[l];
    NumbersIn(rest, j);
    assert j in multiset(Numbers(rest));
    if i > 0 {
      assert rest[i - 1] == notes[i];
      Doubled(rest, i - 1, l - 1);
    }
  }

  lemma SameMultiset<T>(a: multiset<T>, b: multiset<T>)
    requires a <= b && |a| == |b|
    ensures a == b
  {
    assert a + (b - a) == b;
    assert |b - a| == 0;
  }

  /** The numbers are those from 1 to `k - 1`, each once. */
  lemma NumbersExact(notes: seq<Note>, k: nat)
    requires AllReadable(notes)
    ensures Consecutive(notes, k) <==> Exactly(notes, k)
  {
    hide Numbers, Range;
    var numbers, range := multiset(Numbers(notes)), multiset(Range(1, k));
    NumbersLength(notes);
    RangeSize(k);
    forall j: nat
      ensures range[j] == if 1 <= j < k then 1 else 0
      ensures numbers[j] > 0 <==> exists i :: 0 <= i < |notes| && notes[i].k == Some(j)
      ensures numbers[j] > 1 ==> exists i, l :: 0 <= i < l < |notes| && notes[i].k == notes[l].k
    {
      RangeIn(1, k, j);
      RangeOnce(1, k, j);
      assert j in range <==> j in Range(1, k);
      NumberCounts(notes, j);
    }
    if Consecutive(notes, k) {
      assert |numbers| == |range|;
      forall i | 0 <= i < |notes| ensures notes[i].k.Some? && 1 <= notes[i].k.value < k {
        assert numbers[notes[i].k.value] > 0;
      }
      forall i, j | 0 <= i < j < |notes| ensures notes[i].k != notes[j].k {
        if notes[i].k == notes[j].k {
          Doubled(notes, i, j);
        }
      }
    }
    if Exactly(notes, k) {
      assert forall j: nat :: numbers[j] <= range[j];
      SameMultiset(numbers, range);
    }
  }

  lemma RangeSize(k: nat)
    ensures |multiset(Range(1, k))| == Max(k - 1, 0)
  {
    if k >= 1 {
      RangeLength(1, k);
    }
  }

  /** The records in the order of their numbers are those of the notes. */
  lemma {:induction false} InOrderRecords(notes: seq<Note>, lo: nat, hi: nat)
    requires forall i | 0 <= i < |notes| :: NoteOk(notes[i]) && notes[i].rec.Some?
    ensures forall r | r in InOrder(notes, lo, hi) :: exists n :: n in notes && n.rec == Some(r)
    decreases hi - lo
  {
    hide NoteOk, FindNumber;
    if lo < hi {
      InOrderRecords(notes, lo + 1, hi);
      FindNumberFinds(notes, lo);
      if FindNumber(notes, lo).Some? {
        var i :| 0 <= i < |notes| && notes[i].rec == FindNumber(notes, lo);
        assert notes[i] in notes;
      }
    }
  }

  lemma ListedInOrder(notes: seq<Note>, k: nat)
    requires (forall i | 0 <= i < |notes| :: NoteOk(notes[i])) && AllReadable(notes) && Exactly(notes, k)
    ensures Listed(notes, InOrder(notes, 1, k))
  {
    hide InOrder, Consecutive;
    var recs := InOrder(notes, 1, k);
    NumbersExact(notes, k);
    InOrderRecords(notes, 1, k);
    if k >= 1 {
      InOrderNumbers(notes, 1, k, k);
    } else {
      NoRecords(notes);
    }
    assert forall i | 0 <= i < |recs| :: recs[i] in recs;
  }

  lemma NoRecords(notes: seq<Note>)
    ensures InOrder(notes, 1, 0) == []
  {}

  lemma ListedUnique(notes: seq<Note>, k: nat, a: seq<Rec>, b: seq<Rec>)
    requires (forall i | 0 <= i < |notes| :: NoteOk(notes[i])) && Exactly(notes, k)
    requires Listed(notes, a) && Listed(notes, b)
    ensures a == b
  {
    forall i | 0 <= i < |a| ensures a[i] == b[i] {
      var n :| n in notes && n.rec == Some(a[i]);
      var m :| m in notes && m.rec == Some(b[i]);
      var x :| 0 <= x < |notes| && notes[x] == n;
      var y :| 0 <= y < |notes| && notes[y] == m;
      assert n.k == m.k;
      assert x == y;
    }
  }

  /** Why a running total is not stated, and when it is: some earlier note could not be read; the
      earlier records are not just 1 to `k - 1`; a record states no end, or one starts before the
      end of the one before it, named by the first such pair; the last one states no end, or the
      window starts before it. Otherwise the total is that of the records in order. */
  lemma PriorExact(earlier: seq<Note>, k: nat, since: Time, recs: seq<Rec>)
    requires forall i | 0 <= i < |earlier| :: NoteOk(earlier[i])
    ensures var reason := PriorOf(earlier, k, since).reason;
      && (reason == Some(Unparsed) <==> SomeUnread(earlier))
      && (reason == Some(NotConsecutive(k)) <==> !SomeUnread(earlier) && !Exactly(earlier, k))
    ensures !SomeUnread(earlier) && Exactly(earlier, k) && Listed(earlier, recs) ==>
      PriorIs(PriorOf(earlier, k, since), since, recs)
  {
    hide InOrder, Consecutive, Listed, FirstReason, Exactly, NoteOk, PairGaps;
    ReadableExact(earlier);
    if AllReadable(earlier) {
      NumbersExact(earlier, k);
      if Exactly(earlier, k) {
        ListedInOrder(earlier, k);
        var found := InOrder(earlier, 1, k);
        LastNumber(earlier, found);
        FirstReasonKind(found);
        if Listed(earlier, recs) {
          ListedUnique(earlier, k, recs, found);
          if FirstReason(recs).Some? {
            FirstReasonExact(recs, FirstReason(recs).value);
          } else {
            FirstReasonExact(recs, Unparsed);
          }
        }
      }
    }
  }

  lemma LastNumber(notes: seq<Note>, recs: seq<Rec>)
    requires Listed(notes, recs)
    ensures recs != [] ==> recs[|recs| - 1].k == |recs|
  {}

  lemma {:induction false} FirstReasonKind(recs: seq<Rec>)
    ensures FirstReason(recs).Some? ==> FirstReason(recs).value.NoEnd? || FirstReason(recs).value.Overlap?
  {
    if |recs| >= 2 {
      FirstReasonKind(recs[1..]);
    }
  }

  lemma ReadableExact(notes: seq<Note>)
    ensures AllReadable(notes) <==> !SomeUnread(notes)
  {
    if !AllReadable(notes) {
      var i :| 0 <= i < |notes| && !(notes[i].k.Some? && notes[i].rec.Some?);
      assert notes[i] in notes;
    }
  }

  /** What is stated over the records `recs` before the window that starts at `since`. */
  ghost predicate PriorIs(prior: Prior, since: Time, recs: seq<Rec>) {
    match prior.reason
    case None =>
      && prior.records == recs && InLine(recs)
      && (recs != [] ==> recs[|recs| - 1].end.Some? && recs[|recs| - 1].end.value <= since)
    case Some(NoEnd(j)) =>
      FirstWrong(recs, NoEnd(j)) || (recs != [] && InLine(recs) && recs[|recs| - 1].end == None && j == |recs|)
    case Some(Overlap(j)) => FirstWrong(recs, Overlap(j))
    case Some(WindowOverlap(j)) =>
      && recs != [] && InLine(recs) && j == |recs|
      && recs[|recs| - 1].end.Some? && since < recs[|recs| - 1].end.value
    case Some(Unparsed) => false
    case Some(NotConsecutive(_)) => false
  }

  // ----- the figures of a running total

  /** `n` is a whole number nearest to `x`, and the even one of two. */
  lemma HalfEvenExact(x: real, n: int)
    ensures n == HalfEven(x) <==>
      -0.5 <= n as real - x <= 0.5 && (n as real - x == 0.5 || n as real - x == -0.5 ==> n % 2 == 0)
  {
    var f := x.Floor;
    if -0.5 <= n as real - x <= 0.5 {
      assert n == f || n == f + 1;
    }
  }

  /** A cell shows tokens as they are and an amount in whole cents, the nearest ones. */
  lemma ShownExact(c: Column, sum: real)
    ensures match c
      case TokensOf(_) => Shown(c, sum) == sum
      case AllTokens => Shown(c, sum) == sum
      case CostOf(_) => Shown(c, sum) == HalfEven(sum * 100.0) as real / 100.0
      case AllCost => Shown(c, sum) == HalfEven(sum * 100.0) as real / 100.0
  {
  }

  /** One more record adds its figure of the column, nothing if it does not show the column, and makes
      the sum unavailable if it has no figure there. */
  lemma RunningExact(first: Option<real>, recs: seq<Rec>, r: Rec, c: Column)
    ensures RunningSum(first, [], c) == first
    ensures var before, after := RunningSum(first, recs, c), RunningSum(first, recs + [r], c);
      && (before.None? ==> after.None?)
      && (before.Some? && c !in r.total ==> after == before)
      && (before.Some? && c in r.total && r.total[c].None? ==> after.None?)
      && (before.Some? && c in r.total && r.total[c].Some? ==> after == Some(before.value + r.total[c].value))
  {
    assert (recs + [r])[..|recs|] == recs;
  }
}
