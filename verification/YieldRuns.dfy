/** Whole runs of the yield watch: each night folds what was merged and may file issues for the
    candidates, which are then not proposed again while their streak lasts. */
module YieldRuns {
  import opened Common
  import opened YieldWatch

  /** One night: the merge requests fetched, the gates a human declined, and the pairs for which an
      issue was filed or found open. */
  datatype Night = Night(mrs: seq<Mr>, declined: set<string>, filed: seq<Key>)

  /** The pairs to raise, in any order. */
  method Candidates(s: State, declined: set<string>) returns (found: set<Key>)
    ensures forall k :: k in found <==> Candidate(s, declined, k)
  {
    found := {};
    var left := s.pairs.Keys;
    while left != {}
      invariant left <= s.pairs.Keys
      invariant forall k :: k in found <==> k in s.pairs.Keys - left && Candidate(s, declined, k)
      decreases |left|
    {
      var k :| k in left;
      left := left - {k};
      if s.pairs[k].streak < s.threshold || k in s.proposed {
        continue;
      }
      if k.0 in declined {
        continue;
      }
      found := found + {k};
    }
  }

  function AfterNight(s: State, n: Night): State {
    var folded := FoldOf(s, n.mrs);
    folded.(proposed := Joined(folded.proposed, n.filed))
  }

  function AfterNights(s: State, nights: seq<Night>): State {
    if nights == [] then s else AfterNight(AfterNights(s, nights[..|nights| - 1]), nights[|nights| - 1])
  }

  /** Issues are filed for candidates only. */
  ghost predicate FiledCandidates(s: State, nights: seq<Night>) {
    forall i | 0 <= i < |nights| ::
      forall k | k in nights[i].filed ::
        Candidate(FoldOf(AfterNights(s, nights[..i]), nights[i].mrs), nights[i].declined, k)
  }

  method RunNight(w: Watch, n: Night)
    modifies w
    ensures w.Value() == AfterNight(old(w.Value()), n)
  {
    var _ := w.Fold(n.mrs);
    w.Propose(n.filed);
  }

  // ----- the counts do not depend on what is proposed

  function Fetched(nights: seq<Night>): seq<seq<Mr>> {
    if nights == [] then [] else Fetched(nights[..|nights| - 1]) + [nights[|nights| - 1].mrs]
  }

  predicate SameCounts(s: State, t: State) {
    s.time == t.time && s.iid == t.iid && s.threshold == t.threshold && s.pairs == t.pairs
  }

  lemma CountsFold(s: State, t: State, mrs: seq<Mr>)
    requires SameCounts(s, t)
    ensures SameCounts(FoldOf(s, mrs), FoldOf(t, mrs))
  {
    hide Play, Lasting, Batch;
    BatchDependsOnMark(s, t, mrs);
  }

  /** Whatever is filed, the counts and the watermark are those of the folds alone. */
  lemma {:induction false} FilingIsApart(s: State, nights: seq<Night>)
    ensures SameCounts(AfterNights(s, nights), FoldAll(s, Fetched(nights)))
  {
    hide FoldOf;
    if nights != [] {
      var init, last := nights[..|nights| - 1], nights[|nights| - 1];
      FilingIsApart(s, init);
      assert Fetched(nights)[..|nights| - 1] == Fetched(init) by { FetchedLength(nights); FetchedLength(init); }
      FetchedLength(nights);
      CountsFold(AfterNights(s, init), FoldAll(s, Fetched(init)), last.mrs);
    }
  }

  lemma {:induction false} FetchedLength(nights: seq<Night>)
    ensures |Fetched(nights)| == |nights|
  {
    if nights != [] {
      FetchedLength(nights[..|nights| - 1]);
    }
  }

  /** So after every run each pair is the summary of its outcomes in what was taken in. */
  lemma RunIsHistory(threshold: nat, nights: seq<Night>, k: Key)
    ensures var s, ev := AfterNights(Empty(threshold), nights), Events(Taken(Empty(threshold), Fetched(nights)), k);
      (k in s.pairs <==> ev != []) && Summarizes(Get(s.pairs, k), ev, threshold)
  {
    hide Summarizes, FoldAll, Taken, AfterNights;
    FilingIsApart(Empty(threshold), nights);
    StateIsHistory(threshold, Fetched(nights), k);
  }

  // ----- what is proposed

  /** The streak of the pair is over the threshold at the end of night `i`. */
  ghost predicate Lasts(s: State, nights: seq<Night>, i: nat, k: Key)
    requires i < |nights|
  {
    var after := AfterNights(s, nights[..i + 1]);
    Get(after.pairs, k).streak >= after.threshold
  }

  /** The pair was filed on night `i` and its streak has lasted since. */
  ghost predicate FiledSince(s: State, nights: seq<Night>, i: nat, k: Key) {
    i < |nights| && k in nights[i].filed && forall j | i < j < |nights| :: Lasts(s, nights, j, k)
  }

  lemma ProposedNext(s: State, n: Night, k: Key)
    ensures var after := AfterNight(s, n);
      k in after.proposed <==> k in n.filed || (k in s.proposed && Get(after.pairs, k).streak >= after.threshold)
  {
    hide Play, Batch;
    var folded := FoldOf(s, n.mrs);
    FilterMembers(s.proposed, Lasting(folded.pairs, s.threshold), k);
    FilterMembers(n.filed, (x: Key) => x !in folded.proposed, k);
  }

  /** A pair is proposed exactly if it was filed on some night, or was proposed at the start, and its
      streak has lasted at the end of every night since. */
  lemma {:induction false} ProposedExact(s: State, nights: seq<Night>, k: Key)
    ensures k in AfterNights(s, nights).proposed <==>
      || (exists i: nat :: FiledSince(s, nights, i, k))
      || (k in s.proposed && forall j | 0 <= j < |nights| :: Lasts(s, nights, j, k))
  {
    hide AfterNight;
    if nights != [] {
      var n := |nights| - 1;
      var init := nights[..n];
      ProposedExact(s, init, k);
      ProposedNext(AfterNights(s, init), nights[n], k);
      assert nights[..n + 1] == nights;
      forall j | 0 <= j < n ensures Lasts(s, init, j, k) == Lasts(s, nights, j, k) {
        assert init[..j + 1] == nights[..j + 1];
      }
      if k in AfterNights(s, nights).proposed {
        if k in nights[n].filed {
          assert FiledSince(s, nights, n, k);
        } else if i: nat :| FiledSince(s, init, i, k) {
          assert FiledSince(s, nights, i, k);
        }
      }
      if i: nat :| FiledSince(s, nights, i, k) {
        if i < n {
          assert Lasts(s, nights, n, k);
          assert FiledSince(s, init, i, k);
        }
        assert k in AfterNights(s, nights).proposed;
      } else if k in s.proposed && forall j | 0 <= j < |nights| :: Lasts(s, nights, j, k) {
        assert Lasts(s, nights, n, k);
        assert forall j | 0 <= j < n :: Lasts(s, init, j, k);
      }
    }
  }

  /** No proposal is stale: the last `threshold` outcomes of a proposed pair found nothing. */
  lemma ProposedLast(threshold: nat, nights: seq<Night>, k: Key)
    requires FiledCandidates(Empty(threshold), nights) && k in AfterNights(Empty(threshold), nights).proposed
    ensures var ev := Events(Taken(Empty(threshold), Fetched(nights)), k);
      |ev| >= threshold && forall i | |ev| - threshold <= i < |ev| :: ev[i].0 == Zero
  {
    hide AfterNights, FoldOf, Taken, Candidate;
    var s := Empty(threshold);
    StreakLasts(s, nights, k);
    RunIsHistory(threshold, nights, k);
    FilingIsApart(s, nights);
    FoldAllPlays(s, Fetched(nights));
    TrailingAre(Events(Taken(s, Fetched(nights)), k));
  }

  lemma StreakLasts(s: State, nights: seq<Night>, k: Key)
    requires s.proposed == [] && FiledCandidates(s, nights) && k in AfterNights(s, nights).proposed
    ensures Get(AfterNights(s, nights).pairs, k).streak >= AfterNights(s, nights).threshold
  {
    hide FoldOf;
    if nights != [] {
      var n := |nights| - 1;
      assert nights[..n + 1] == nights;
      ProposedNext(AfterNights(s, nights[..n]), nights[n], k);
      assert k in nights[n].filed ==> Candidate(FoldOf(AfterNights(s, nights[..n]), nights[n].mrs),
        nights[n].declined, k);
    }
  }

  /** No pair is filed twice in one streak: between two filings there is a night at whose end the
      streak was below the threshold. */
  lemma FiledOnceAStreak(s: State, nights: seq<Night>, i: nat, j: nat, k: Key)
    requires FiledCandidates(s, nights) && i < j < |nights| && k in nights[i].filed && k in nights[j].filed
    ensures exists m: nat :: i < m < j && !Lasts(s, nights, m, k)
  {
    hide FoldOf, AfterNights;
    var before := AfterNights(s, nights[..j]);
    var folded := FoldOf(before, nights[j].mrs);
    assert Candidate(folded, nights[j].declined, k);
    if forall m: nat | i < m < j :: Lasts(s, nights, m, k) {
      forall m: nat | i < m < j ensures Lasts(s, nights[..j], m, k) {
        assert nights[..j][..m + 1] == nights[..m + 1] && Lasts(s, nights, m, k);
      }
      assert FiledSince(s, nights[..j], i, k);
      ProposedExact(s, nights[..j], k);
      StillProposed(before, nights[j].mrs, k);
      assert false;
    }
  }

  lemma StillProposed(s: State, mrs: seq<Mr>, k: Key)
    requires k in s.proposed && k !in FoldOf(s, mrs).proposed
    ensures Get(FoldOf(s, mrs).pairs, k).streak < FoldOf(s, mrs).threshold
  {
    hide Play, Batch;
    FilterMembers(s.proposed, Lasting(FoldOf(s, mrs).pairs, s.threshold), k);
  }
}
