/** When the reader of `rules:` must give a definite answer, and which: told from the pipelines of
    the context and from the shape of the comparisons it is blind to or guesses at. */
module CiAnswers {
  import opened Common
  import opened CiRules

  // ----- one comparison

  /** The comparison comes out the same in every pipeline of the context. */
  ghost predicate AllAgree(a: Atom, ctx: Context) {
    forall p, q | InContext(p, ctx) && InContext(q, ctx) :: AtomHolds(p, a) == AtomHolds(q, a)
  }

  /** The shapes of comparison on which the reader gives up, whatever they compare with: variables
      it does not know, a source that is not compared for equality, a tag name that is to differ,
      and a branch compared with anything but the default branch, unless it is to equal a literal. */
  ghost predicate BlindTo(a: Atom, ctx: Context) {
    match a
    case Opaque(_) => true
    case Compare(v, op, val) =>
      match v
      case Source => op.Match? || op.NotMatch? || op.IsSet?
      case CommitTag => ctx.Tag? && (op.Ne? || op.NotMatch?)
      case Branch =>
        && ctx.Main? && !op.IsSet?
        && val != Text("main") && val != Variable(DefaultBranch)
        && (op.Eq? ==> val.Variable?)
      case MergeRequest(_) => false
      case DefaultBranch => true
      case Other(_) => true
  }

  /** What the reader takes a comparison for that it guesses at. */
  ghost predicate GuessedTrue(a: Atom, ctx: Context)
    requires Guesses(a, ctx)
  {
    if a.v.CommitTag? && ctx.Tag? then true else if a.v.Branch? && ctx.Main? then false else a.op.Ne?
  }

  /** A push and a web pipeline on the default branch. */
  lemma SourcesDiffer(a: Atom) returns (p: Pipeline, q: Pipeline)
    requires a.Compare? && a.v.Source? && (a.op.Eq? || a.op.Ne?)
    requires a.val == Text("push") || a.val == Text("web")
    ensures InContext(p, Main) && InContext(q, Main) && AtomHolds(p, a) != AtomHolds(q, a)
  {
    p := Sample(Main, "", map[], false);
    q := Pipeline(map[Source := "web", DefaultBranch := "main", Branch := "main"], (lhs, rhs) => false, text => false);
    assert "push"[0] != "web"[0];
  }

  lemma Answered(a: Atom, ctx: Context)
    requires Guesses(a, ctx) || (AllAgree(a, ctx) && !BlindTo(a, ctx))
    ensures AtomVerdict(a, ctx).Some?
  {
    if AtomVerdict(a, ctx).None? {
      var p, q := SourcesDiffer(a);
    }
  }

  /** Every comparison that all pipelines of the context agree on is answered, and with what they
      agree on, unless its shape is one the reader is blind to or guesses at; and no other is. */
  lemma AnswerExact(a: Atom, ctx: Context, answer: bool)
    ensures AtomVerdict(a, ctx) == Some(answer) <==>
      if Guesses(a, ctx) then answer == GuessedTrue(a, ctx)
      else !BlindTo(a, ctx) && forall p | InContext(p, ctx) :: AtomHolds(p, a) == answer
  {
    hide AtomHolds, InContext;
    var some := Sample(ctx, "v1", map[], false);
    InContextSample(ctx);
    if Guesses(a, ctx) {
      assert AtomVerdict(a, ctx) == Some(GuessedTrue(a, ctx));
    } else if AtomVerdict(a, ctx) == Some(answer) {
      forall p | InContext(p, ctx) ensures AtomHolds(p, a) == answer {
        FaithfulIsRight(p, a, ctx);
      }
    } else if !BlindTo(a, ctx) && forall p | InContext(p, ctx) :: AtomHolds(p, a) == answer {
      Answered(a, ctx);
      FaithfulIsRight(some, a, ctx);
    }
  }

  lemma InContextSample(ctx: Context)
    ensures InContext(Sample(ctx, "v1", map[], false), ctx)
  {}

  // ----- whole conditions

  datatype Truth = Holds | Fails

  /** A guess at each comparison that the reader cannot answer. */
  type Filling = (nat, nat) -> Truth

  ghost predicate Fills(t: Filling, c: Cond, ctx: Context)
    requires c.Dnf?
  {
    forall i: nat, j: nat | i < |c.ors| && j < |c.ors[i]| ::
      match AtomVerdict(c.ors[i][j], ctx)
      case Some(answer) => t(i, j) == if answer then Holds else Fails
      case None => true
  }

  ghost predicate AllHeld(t: Filling, c: Cond, i: nat)
    requires c.Dnf? && i < |c.ors|
  {
    forall j: nat | j < |c.ors[i]| :: t(i, j).Holds?
  }

  ghost predicate Filled(t: Filling, c: Cond)
    requires c.Dnf?
  {
    exists i: nat :: i < |c.ors| && AllHeld(t, c, i)
  }

  /** The answers, with one and the same truth for every comparison without an answer. */
  ghost function Default(c: Cond, ctx: Context, rest: Truth): Filling
    requires c.Dnf?
  {
    (i: nat, j: nat) =>
      if i < |c.ors| && j < |c.ors[i]| && AtomVerdict(c.ors[i][j], ctx).Some?
      then (if AtomVerdict(c.ors[i][j], ctx).value then Holds else Fails) else rest
  }

  lemma AndFilled(t: Filling, c: Cond, i: nat, ctx: Context)
    requires c.Dnf? && i < |c.ors| && Fills(t, c, ctx)
    ensures AndVerdict(c.ors[i], ctx) == Some(true) ==> AllHeld(t, c, i)
    ensures AndVerdict(c.ors[i], ctx) == Some(false) ==> !AllHeld(t, c, i)
  {
  }

  lemma AndOpen(c: Cond, i: nat, ctx: Context)
    requires c.Dnf? && i < |c.ors| && AndVerdict(c.ors[i], ctx).None?
    ensures AllHeld(Default(c, ctx, Holds), c, i) && !AllHeld(Default(c, ctx, Fails), c, i)
  {
    hide AtomVerdict;
    var ands := c.ors[i];
    var j :| 0 <= j < |ands| && AtomVerdict(ands[j], ctx) != Some(true);
    assert Default(c, ctx, Fails)(i, j).Fails?;
  }

  lemma CondFilled(t: Filling, c: Cond, ctx: Context)
    requires c.Dnf? && Fills(t, c, ctx) && CondVerdict(c, ctx).Some?
    ensures Filled(t, c) == CondVerdict(c, ctx).value
  {
    hide AndVerdict, AllHeld;
    forall i: nat | i < |c.ors|
      ensures AndVerdict(c.ors[i], ctx) == Some(true) ==> AllHeld(t, c, i)
      ensures AndVerdict(c.ors[i], ctx) == Some(false) ==> !AllHeld(t, c, i)
    {
      AndFilled(t, c, i, ctx);
    }
  }

  lemma NoAnswer(answer: Option<bool>)
    ensures answer.None? || answer == Some(true) || answer == Some(false)
  {
    assert answer.Some? ==> answer.value || !answer.value;
  }

  lemma CondOpen(c: Cond, ctx: Context)
    requires c.Dnf? && CondVerdict(c, ctx).None?
    ensures Filled(Default(c, ctx, Holds), c) && !Filled(Default(c, ctx, Fails), c)
  {
    hide AndVerdict, AllHeld, AtomVerdict;
    var open: nat :| open < |c.ors| && AndVerdict(c.ors[open], ctx) != Some(false);
    assert forall i: nat | i < |c.ors| :: AndVerdict(c.ors[i], ctx) != Some(true);
    assert AndVerdict(c.ors[open], ctx).None? by { NoAnswer(AndVerdict(c.ors[open], ctx)); }
    AndOpen(c, open, ctx);
    forall i: nat | i < |c.ors| ensures !AllHeld(Default(c, ctx, Fails), c, i) {
      NoAnswer(AndVerdict(c.ors[i], ctx));
      if AndVerdict(c.ors[i], ctx).None? {
        AndOpen(c, i, ctx);
      } else {
        AndFilled(Default(c, ctx, Fails), c, i, ctx);
      }
    }
  }

  /** An `if:` is answered exactly if it comes out the same however the comparisons without an
      answer are filled in, and with what it comes out as. */
  lemma CondExact(c: Cond, ctx: Context, answer: bool)
    ensures CondVerdict(c, ctx) == Some(answer) <==>
      c.Dnf? && forall t | Fills(t, c, ctx) :: Filled(t, c) == answer
  {
    hide CondVerdict, AtomVerdict, Filled;
    if c.Unreadable? {
      assert CondVerdict(c, ctx).None? by { UnreadableIsOpen(c, ctx); }
    } else {
      assert Fills(Default(c, ctx, Holds), c, ctx) && Fills(Default(c, ctx, Fails), c, ctx);
      if CondVerdict(c, ctx).None? {
        CondOpen(c, ctx);
      } else {
        forall t | Fills(t, c, ctx) ensures Filled(t, c) == CondVerdict(c, ctx).value {
          CondFilled(t, c, ctx);
        }
      }
    }
  }

  lemma UnreadableIsOpen(c: Cond, ctx: Context)
    requires c.Unreadable?
    ensures CondVerdict(c, ctx).None?
  {}

  /** The item's condition is answered with `answer`; an item without one always matches. */
  ghost predicate Answers(item: Item, ctx: Context, answer: bool) {
    match item.cond
    case None => answer
    case Some(c) => c.Dnf? && forall t | Fills(t, c, ctx) :: Filled(t, c) == answer
  }

  lemma ItemExact(item: Item, ctx: Context, answer: bool)
    ensures ItemVerdict(item, ctx) == Some(answer) <==> Answers(item, ctx, answer)
  {
    hide CondVerdict;
    if item.cond.Some? {
      CondExact(item.cond.value, ctx, answer);
    }
  }

  // ----- lists of items

  /** What the item lets happen to the job: its own `when:`, else the job's, else `on_success`. */
  ghost predicate Says(item: Item, jobWhen: string, word: string) {
    match item.when
    case Some(own) => if |own| > 0 then word == own else JobSays(jobWhen, word)
    case None => JobSays(jobWhen, word)
  }

  ghost predicate JobSays(jobWhen: string, word: string) {
    if |jobWhen| > 0 then word == jobWhen else word == "on_success"
  }

  /** The item matches in the pipeline. */
  ghost predicate Applies(p: Pipeline, item: Item, files: Files) {
    && (item.cond.Some? ==> CondHolds(p, item.cond.value))
    && (item.changes || item.exists_ ==> files == Met)
  }

  /** Item `i` is the first that matches. */
  ghost predicate Decides(p: Pipeline, items: seq<Item>, files: seq<Files>, i: nat)
    requires |files| == |items|
  {
    i < |items| && Applies(p, items[i], files[i]) && forall j: nat | j < i :: !Applies(p, items[j], files[j])
  }

  /** The job is added as the first matching item says, and not if that says `never`. */
  lemma {:induction false} FirstMatchExact(p: Pipeline, items: seq<Item>, files: seq<Files>, jobWhen: string,
        word: string)
    requires |files| == |items|
    ensures FirstMatch(p, items, files, jobWhen) == Added(word) <==>
      word != "never" && exists i: nat :: Decides(p, items, files, i) && Says(items[i], jobWhen, word)
  {
    hide CondHolds;
    if items != [] {
      FirstMatchExact(p, items[1..], files[1..], jobWhen, word);
      assert Decides(p, items, files, 0) <==> Applies(p, items[0], files[0]);
      forall i: nat ensures Decides(p, items, files, i + 1) <==>
        !Applies(p, items[0], files[0]) && Decides(p, items[1..], files[1..], i)
      {
        DecidesStep(p, items, files, i);
      }
      if i: nat :| Decides(p, items, files, i) && Says(items[i], jobWhen, word) {
        assert i > 0 ==> Decides(p, items[1..], files[1..], i - 1);
      }
    }
  }

  lemma DecidesStep(p: Pipeline, items: seq<Item>, files: seq<Files>, i: nat)
    requires |files| == |items| && items != []
    ensures Decides(p, items, files, i + 1) <==>
      !Applies(p, items[0], files[0]) && Decides(p, items[1..], files[1..], i)
  {
    hide Applies;
    var rest, later := items[1..], files[1..];
    assert forall j: nat | j < |rest| :: rest[j] == items[j + 1] && later[j] == files[j + 1];
    assert forall j: nat | 0 < j < |items| :: items[j] == rest[j - 1] && files[j] == later[j - 1];
  }

  /** The item surely keeps a tag pipeline from adding the job. */
  ghost predicate SurelyNever(item: Item) {
    item.when == Some("never") && Answers(item, Tag, true)
  }

  /** The item may add the job to a tag pipeline. */
  ghost predicate MayAdd(item: Item) {
    item.when != Some("never") && !Answers(item, Tag, false)
  }

  /** A job can run on a tag, as the reader sees it, exactly if some item that does not say `never`
      may match and no item before it surely matches and says `never`. */
  lemma {:induction false} TagReadExact(items: seq<Item>)
    ensures TagRunnable(items) <==>
      exists i: nat :: i < |items| && MayAdd(items[i]) && forall j: nat | j < i :: !SurelyNever(items[j])
  {
    hide Answers;
    if items != [] {
      var rest := items[1..];
      TagReadExact(rest);
      ItemExact(items[0], Tag, true);
      ItemExact(items[0], Tag, false);
      NoAnswer(ItemVerdict(items[0], Tag));
      assert forall j: nat | j < |rest| :: rest[j] == items[j + 1];
      if i: nat :| i < |rest| && MayAdd(rest[i]) && forall j: nat | j < i :: !SurelyNever(rest[j]) {
        if !SurelyNever(items[0]) {
          forall j: nat | j < i + 1 ensures !SurelyNever(items[j]) {
            assert j > 0 ==> items[j] == rest[j - 1];
          }
          assert i + 1 < |items| && MayAdd(items[i + 1]);
        }
      }
      if i: nat :| i < |items| && MayAdd(items[i]) && forall j: nat | j < i :: !SurelyNever(items[j]) {
        if i > 0 {
          assert MayAdd(rest[i - 1]) && forall j: nat | j < i - 1 :: !SurelyNever(rest[j]);
        }
      }
    }
  }

  /** On main the reader does not look past this item: it cannot tell whether it matches, or it
      surely matches and does not depend on files. */
  ghost predicate Settles(item: Item) {
    !Answers(item, Main, false) && (Answers(item, Main, true) ==> !item.changes && !item.exists_)
  }

  /** The reader comes to item `i`. */
  ghost predicate Comes(items: seq<Item>, i: nat) {
    i < |items| && forall j: nat | j < i :: !Settles(items[j])
  }

  /** Some item it comes to may match and makes the job manual. */
  ghost predicate MeetsManual(items: seq<Item>, jobWhen: string) {
    exists i: nat :: Comes(items, i) && !Answers(items[i], Main, false) && Says(items[i], jobWhen, "manual")
  }

  /** It comes to an item of which it cannot tell whether it matches. */
  ghost predicate MeetsUnknown(items: seq<Item>) {
    exists i: nat :: Comes(items, i) && !Answers(items[i], Main, false) && !Answers(items[i], Main, true)
  }

  /** The item surely matches, whatever files changed, and adds the job. */
  ghost predicate SurelyAdds(item: Item, jobWhen: string) {
    Answers(item, Main, true) && !item.changes && !item.exists_ && !Says(item, jobWhen, "never")
  }

  ghost predicate MeetsAdder(items: seq<Item>, jobWhen: string) {
    exists i: nat :: Comes(items, i) && SurelyAdds(items[i], jobWhen)
  }

  lemma ComesStep(items: seq<Item>, i: nat)
    requires items != []
    ensures Comes(items, i + 1) <==> !Settles(items[0]) && Comes(items[1..], i)
  {
    hide Settles;
    var rest := items[1..];
    assert forall j: nat | j < |rest| :: rest[j] == items[j + 1];
    assert forall j: nat | 0 < j < |items| :: items[j] == rest[j - 1];
  }

  /** How meeting such items in a list goes back to meeting them in its tail. */
  lemma MeetsStep(items: seq<Item>, jobWhen: string)
    requires items != []
    ensures MeetsManual(items, jobWhen) <==>
      || (!Answers(items[0], Main, false) && Says(items[0], jobWhen, "manual"))
      || (!Settles(items[0]) && MeetsManual(items[1..], jobWhen))
    ensures MeetsUnknown(items) <==>
      || (!Answers(items[0], Main, false) && !Answers(items[0], Main, true))
      || (!Settles(items[0]) && MeetsUnknown(items[1..]))
    ensures MeetsAdder(items, jobWhen) <==>
      || SurelyAdds(items[0], jobWhen)
      || (!Settles(items[0]) && MeetsAdder(items[1..], jobWhen))
  {
    hide Answers, Settles, Comes, Says;
    var rest := items[1..];
    assert Comes(items, 0) by { FirstComes(items); }
    forall i: nat ensures Comes(items, i + 1) <==> !Settles(items[0]) && Comes(rest, i) {
      ComesStep(items, i);
    }
    forall i: nat ensures Comes(items, i) ==> i < |items| && (i > 0 ==> items[i] == rest[i - 1]) {
      ComesBounds(items, i);
    }
    forall i: nat ensures Comes(rest, i) ==> i < |rest| && rest[i] == items[i + 1] {
      ComesBounds(rest, i);
    }
    if i: nat :| Comes(items, i) && !Answers(items[i], Main, false) && Says(items[i], jobWhen, "manual") {
      assert i > 0 ==> Comes(rest, i - 1) && items[i] == rest[i - 1];
    }
    if i: nat :| Comes(items, i) && !Answers(items[i], Main, false) && !Answers(items[i], Main, true) {
      assert i > 0 ==> Comes(rest, i - 1) && items[i] == rest[i - 1];
    }
    if i: nat :| Comes(items, i) && SurelyAdds(items[i], jobWhen) {
      assert i > 0 ==> Comes(rest, i - 1) && items[i] == rest[i - 1];
    }
  }

  lemma FirstComes(items: seq<Item>)
    requires items != []
    ensures Comes(items, 0)
  {}

  lemma ComesBounds(items: seq<Item>, i: nat)
    ensures Comes(items, i) ==> i < |items|
  {}

  lemma {:induction false} MainItemsExact(items: seq<Item>, jobWhen: string, manual: bool)
    ensures var outcome := MainItems(items, jobWhen, manual);
      && (outcome == ManualPossible <==> manual || MeetsManual(items, jobWhen))
      && (outcome == Unknown <==> !manual && !MeetsManual(items, jobWhen) && MeetsUnknown(items))
      && (outcome == Always <==> !manual && !MeetsManual(items, jobWhen) && MeetsAdder(items, jobWhen))
  {
    hide Answers, Comes;
    if items != [] {
      hide MeetsManual, MeetsUnknown, MeetsAdder;
      var here := !Answers(items[0], Main, false) && Says(items[0], jobWhen, "manual");
      MainItemsExact(items[1..], jobWhen, manual || here);
      MeetsStep(items, jobWhen);
      ItemExact(items[0], Main, true);
      ItemExact(items[0], Main, false);
      NoAnswer(ItemVerdict(items[0], Main));
      assert Says(items[0], jobWhen, "manual") <==> EffectiveWhen(items[0], jobWhen) == MANUAL;
      assert Says(items[0], jobWhen, "never") <==> EffectiveWhen(items[0], jobWhen) == NEVER;
    } else {
      assert forall i: nat :: !Comes(items, i) by {
        forall i: nat ensures !Comes(items, i) { ComesBounds(items, i); }
      }
    }
  }

  /** How a job with these items behaves on main, as the reader sees it: `manual-possible` exactly
      if it comes to an item that may match and makes the job manual; otherwise `always` exactly if
      the item it settles on surely matches and adds the job, and `unknown` exactly if it cannot
      tell whether that item matches. */
  lemma MainReadExact(items: seq<Item>, jobWhen: string)
    ensures var outcome := MainItems(items, jobWhen, false);
      && (outcome == ManualPossible <==> MeetsManual(items, jobWhen))
      && (outcome == Always <==> !MeetsManual(items, jobWhen) && MeetsAdder(items, jobWhen))
      && (outcome == Unknown <==> !MeetsManual(items, jobWhen) && MeetsUnknown(items))
  {
    MainItemsExact(items, jobWhen, false);
  }

  // ----- comparisons that all pipelines agree on

  /** A comparison that has one and the same value in all pipelines of the context, and of a shape
      that the reader neither guesses at nor is blind to. */
  ghost predicate Plain(a: Atom, ctx: Context) {
    AllAgree(a, ctx) && !Guesses(a, ctx) && !BlindTo(a, ctx)
  }

  ghost predicate PlainItem(item: Item, ctx: Context) {
    match item.cond
    case None => true
    case Some(c) => c.Dnf? && forall i, j | 0 <= i < |c.ors| && 0 <= j < |c.ors[i]| :: Plain(c.ors[i][j], ctx)
  }

  ghost predicate PlainItems(items: seq<Item>, ctx: Context) {
    forall i | 0 <= i < |items| :: PlainItem(items[i], ctx)
  }

  lemma PlainAnswer(p: Pipeline, a: Atom, ctx: Context)
    requires Plain(a, ctx) && InContext(p, ctx)
    ensures AtomVerdict(a, ctx) == Some(AtomHolds(p, a))
  {
    hide InContext, AtomHolds, Guesses, BlindTo;
    AnswerExact(a, ctx, AtomHolds(p, a));
  }

  lemma PlainAnd(p: Pipeline, ands: seq<Atom>, ctx: Context)
    requires InContext(p, ctx) && forall j | 0 <= j < |ands| :: Plain(ands[j], ctx)
    ensures AndVerdict(ands, ctx) == Some(AllHold(p, ands))
  {
    hide InContext, AtomHolds, AtomVerdict, Plain;
    forall j | 0 <= j < |ands| ensures AtomVerdict(ands[j], ctx) == Some(AtomHolds(p, ands[j])) {
      PlainAnswer(p, ands[j], ctx);
    }
  }

  /** Such conditions are answered with their value. */
  lemma PlainItemAnswered(p: Pipeline, item: Item, ctx: Context)
    requires InContext(p, ctx) && PlainItem(item, ctx)
    ensures ItemVerdict(item, ctx) == Some(IfHolds(p, item))
  {
    hide InContext, AndVerdict, AllHold, Plain;
    if item.cond.Some? {
      var c := item.cond.value;
      forall i | 0 <= i < |c.ors| ensures AndVerdict(c.ors[i], ctx) == Some(AllHold(p, c.ors[i])) {
        PlainAnd(p, c.ors[i], ctx);
      }
    }
  }

  ghost function All(items: seq<Item>, files: Files): seq<Files> {
    seq(|items|, _ => files)
  }

  lemma {:induction false} TagPlain(p: Pipeline, items: seq<Item>, jobWhen: string)
    requires InContext(p, Tag) && PlainItems(items, Tag) && jobWhen != "never"
    ensures TagRunnable(items) <==> FirstMatch(p, items, All(items, Met), jobWhen).Added?
  {
    hide InContext, ItemVerdict, IfHolds, PlainItem;
    if items != [] {
      PlainItemAnswered(p, items[0], Tag);
      assert All(items, Met)[1..] == All(items[1..], Met);
      TagPlain(p, items[1..], jobWhen);
    }
  }

  lemma {:induction false} MainPlainItems(p: Pipeline, items: seq<Item>, jobWhen: string, manual: bool)
    requires InContext(p, Main) && PlainItems(items, Main)
    ensures MainItems(items, jobWhen, manual) ==
      if manual || CanBeManual(p, items, jobWhen) then ManualPossible
      else if FirstMatch(p, items, All(items, Unmet), jobWhen).Added? then Always
      else Conditional
  {
    hide InContext, ItemVerdict, IfHolds, PlainItem, EffectiveWhen;
    if items != [] {
      PlainItemAnswered(p, items[0], Main);
      assert All(items, Unmet)[1..] == All(items[1..], Unmet);
      MainPlainItems(p, items[1..], jobWhen,
                     manual || (IfHolds(p, items[0]) && EffectiveWhen(items[0], jobWhen) == MANUAL));
    }
  }

  /** With such conditions the outcome is `manual-possible` exactly if some files make the job
      manual, otherwise `always` exactly if it is added when no file condition is met, and otherwise
      `conditional`; it is never `unknown`. */
  lemma MainPlain(p: Pipeline, items: seq<Item>, jobWhen: string)
    requires InContext(p, Main) && PlainItems(items, Main)
    ensures var outcome := MainItems(items, jobWhen, false);
      && (outcome == ManualPossible <==> !NeverMadeManual(p, items, jobWhen))
      && (outcome == Always <==>
            NeverMadeManual(p, items, jobWhen) && FirstMatch(p, items, All(items, Unmet), jobWhen).Added?)
      && outcome != Unknown
  {
    hide InContext, FirstMatch, PlainItem;
    MainPlainItems(p, items, jobWhen, false);
    NeverManualExact(p, items, jobWhen);
  }

  /** A job that asks for the default branch runs on every push to it and on no tag. */
  lemma DefaultBranchJob()
    ensures var items := [Item(Some(Dnf([[Compare(Branch, Eq, Variable(DefaultBranch))]])), None, false, false)];
      MainItems(items, "", false) == Always && !TagRunnable(items)
  {
    var atom := Compare(Branch, Eq, Variable(DefaultBranch));
    var items := [Item(Some(Dnf([[atom]])), None, false, false)];
    assert AtomVerdict(atom, Main) == Some(true) && AtomVerdict(atom, Tag) == Some(false);
    assert [atom][0] == atom && items[0].cond.value.ors[0] == [atom];
    assert AndVerdict([atom], Main) == Some(true) && AndVerdict([atom], Tag) == Some(false);
    assert ItemVerdict(items[0], Main) == Some(true) && ItemVerdict(items[0], Tag) == Some(false);
    assert !TagRunnable(items[1..]);
  }
}
