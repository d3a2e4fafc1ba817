/** How `scripts/wait-for-main-pipeline.py --check-ci-file` reads GitLab `rules:`.  The reader is
    a three-valued abstract interpreter; the reference here is GitLab's own first-match
    evaluation of the same rules in one concrete pipeline. */
module CiRules {
  import opened Common

  // ----- atoms: comparisons in an `if:`

  datatype Op = Eq | Ne | Match | NotMatch | IsSet

  /** The variables the reader tells apart. `MergeRequest` stands for the `CI_MERGE_REQUEST*`
      family and `CI_OPEN_MERGE_REQUESTS`, `Other` for every further variable. */
  datatype Var = Source | CommitTag | Branch | DefaultBranch | MergeRequest(name: string) | Other(name: string)

  /** The right-hand side: a literal, a variable, or the keyword `null`. */
  datatype Operand = Text(s: string) | Variable(v: Var) | Null

  datatype Atom = Compare(v: Var, op: Op, val: Operand) | Opaque(text: string)

  /** The two kinds of pipeline asked about: a tag push, and a main pipeline the guard judges. */
  datatype Context = Tag | Main

  /** One concrete pipeline: its variables, what its regular expressions match, and the value of
      the comparisons that the reader cannot parse. */
  datatype Pipeline = Pipeline(vars: map<Var, string>, matches: (string, string) -> bool, unparsed: string -> bool)

  function Get(p: Pipeline, v: Var): Option<string> {
    if v in p.vars then Some(p.vars[v]) else None
  }

  ghost predicate InContext(p: Pipeline, ctx: Context) {
    && (forall name :: MergeRequest(name) !in p.vars)
    && Get(p, DefaultBranch) == Some("main")
    && match ctx
       case Tag =>
         && Get(p, Source) == Some("push")
         && CommitTag in p.vars && p.vars[CommitTag] != ""
         && Branch !in p.vars
       case Main =>
         && (Get(p, Source) == Some("push") || Get(p, Source) == Some("web"))
         && CommitTag !in p.vars
         && Get(p, Branch) == Some("main")
  }

  function Value(p: Pipeline, val: Operand): Option<string> {
    match val
    case Text(s) => Some(s)
    case Variable(v) => Get(p, v)
    case Null => None
  }

  predicate Matches(p: Pipeline, lhs: Option<string>, rhs: Option<string>) {
    lhs.Some? && rhs.Some? && p.matches(lhs.value, rhs.value)
  }

  predicate AtomHolds(p: Pipeline, a: Atom) {
    match a
    case Opaque(text) => p.unparsed(text)
    case Compare(v, op, val) =>
      var lhs, rhs := Get(p, v), Value(p, val);
      match op
      case Eq => lhs == rhs
      case Ne => lhs != rhs
      case Match => Matches(p, lhs, rhs)
      case NotMatch => !Matches(p, lhs, rhs)
      case IsSet => lhs.Some? && lhs.value != ""
  }

  predicate Negative(op: Op) { op.Ne? || op.NotMatch? }

  function SourceVerdict(op: Op, val: Operand, ctx: Context): Option<bool> {
    var onPush, onWeb := (val == Text("push")) == op.Eq?, (val == Text("web")) == op.Eq?;
    if ctx.Tag? || onPush == onWeb then Some(onPush) else None
  }

  function BranchOnMain(op: Op, val: Operand): Option<bool> {
    if op.IsSet? then Some(true)
    else if val == Variable(DefaultBranch) || val == Text("main") then Some(op.Eq?)
    else if op.Eq? && !val.Variable? then Some(false)
    else None
  }

  /** The reader's three-valued answer for one comparison. */
  function AtomVerdict(a: Atom, ctx: Context): Option<bool> {
    match a
    case Opaque(_) => None
    case Compare(v, op, val) =>
      match v
      case Source => if op.Eq? || op.Ne? then SourceVerdict(op, val, ctx) else None
      case CommitTag => if ctx.Main? then Some(Negative(op)) else if Negative(op) then None else Some(true)
      case Branch => if ctx.Tag? then Some(Negative(op)) else BranchOnMain(op, val)
      case MergeRequest(_) => Some(Negative(op))
      case DefaultBranch => None
      case Other(_) => None
  }

  // ----- when one comparison's answer can be trusted

  /** The reader's answer is right in this pipeline. */
  predicate Right(p: Pipeline, a: Atom, ctx: Context) {
    AtomVerdict(a, ctx).Some? ==> AtomVerdict(a, ctx).value == AtomHolds(p, a)
  }

  /** The right-hand side has a value in every pipeline of the context. */
  predicate AlwaysSet(val: Operand, ctx: Context) {
    match val
    case Text(_) => true
    case Null => false
    case Variable(v) =>
      match v
      case Source => true
      case DefaultBranch => true
      case CommitTag => ctx.Tag?
      case Branch => ctx.Main?
      case MergeRequest(_) => false
      case Other(_) => false
  }

  /** The right-hand side can be the name of a pipeline source. */
  predicate MayBeSource(val: Operand, ctx: Context) {
    val.Variable? && (val.v.Other? || val.v.Source? || (val.v.CommitTag? && ctx.Tag?))
  }

  predicate ComparesValues(op: Op) { op.Eq? || op.Ne? }

  /** The comparisons that the reader answers although pipelines of the context differ on them or
      all say otherwise: a source is compared as if the other side were a literal, a tag name as if
      every positive comparison held, the branch as if a pattern were a name, and an unset variable
      as if the other side were set. */
  predicate Guesses(a: Atom, ctx: Context) {
    match a
    case Opaque(_) => false
    case Compare(v, op, val) =>
      match v
      case Source => ComparesValues(op) && MayBeSource(val, ctx)
      case CommitTag =>
        if ctx.Tag? then op.Match? || (op.Eq? && val != Variable(CommitTag))
        else ComparesValues(op) && !AlwaysSet(val, ctx)
      case Branch =>
        if ctx.Main? then (op.Match? || op.NotMatch?) && (val == Text("main") || val == Variable(DefaultBranch))
        else ComparesValues(op) && !AlwaysSet(val, ctx)
      case MergeRequest(_) => ComparesValues(op) && !AlwaysSet(val, ctx)
      case DefaultBranch => false
      case Other(_) => false
  }

  predicate Faithful(a: Atom, ctx: Context) {
    !Guesses(a, ctx)
  }

  lemma FaithfulIsRight(p: Pipeline, a: Atom, ctx: Context)
    requires Faithful(a, ctx) && InContext(p, ctx)
    ensures Right(p, a, ctx)
  {
  }

  /** A pipeline of the context with one free variable and one fixed answer to every match. */
  function Sample(ctx: Context, tag: string, extra: map<Var, string>, hit: bool): Pipeline {
    Pipeline(
      extra + (if ctx.Tag? then map[Source := "push", DefaultBranch := "main", CommitTag := tag]
               else map[Source := "push", DefaultBranch := "main", Branch := "main"]),
      (lhs, rhs) => hit, text => false)
  }

  lemma RefutedSource(op: Op, val: Operand, ctx: Context) returns (p: Pipeline)
    requires ComparesValues(op) && MayBeSource(val, ctx)
    ensures InContext(p, ctx) && !Right(p, Compare(Source, op, val), ctx)
  {
    p := Sample(ctx, "push", if val.v.Other? then map[val.v := "push"] else map[], false);
    assert Value(p, val) == Some("push");
  }

  lemma RefutedBranch(op: Op, val: Operand) returns (p: Pipeline)
    requires (op.Match? || op.NotMatch?) && (val == Text("main") || val == Variable(DefaultBranch))
    ensures InContext(p, Main) && !Right(p, Compare(Branch, op, val), Main)
  {
    p := Sample(Main, "", map[], op.Match?);
    assert Value(p, val) == Some("main");
  }

  lemma RefutedTag(op: Op, val: Operand) returns (p: Pipeline)
    requires op.Match? || (op.Eq? && val != Variable(CommitTag))
    ensures InContext(p, Tag) && !Right(p, Compare(CommitTag, op, val), Tag)
  {
    assert "v1"[0] != "main"[0] && "v1"[0] != "push"[0] && "v1"[1] != "v2"[1];
    p := Sample(Tag, if val == Text("v1") then "v2" else "v1", map[], false);
  }

  lemma RefutedUnset(v: Var, op: Op, val: Operand, ctx: Context) returns (p: Pipeline)
    requires v.MergeRequest? || (v.CommitTag? && ctx.Main?) || (v.Branch? && ctx.Tag?)
    requires ComparesValues(op) && !AlwaysSet(val, ctx)
    ensures InContext(p, ctx) && !Right(p, Compare(v, op, val), ctx)
  {
    p := Sample(ctx, "v1", map[], false);
    assert Get(p, v).None? && Value(p, val).None?;
  }

  lemma Refutation(a: Atom, ctx: Context) returns (p: Pipeline)
    requires !Faithful(a, ctx)
    ensures InContext(p, ctx) && !Right(p, a, ctx)
  {
    hide InContext, Right, AlwaysSet, MayBeSource;
    if a.v.Source? {
      p := RefutedSource(a.op, a.val, ctx);
    } else if a.v.Branch? && ctx.Main? {
      p := RefutedBranch(a.op, a.val);
    } else if a.v.CommitTag? && ctx.Tag? {
      p := RefutedTag(a.op, a.val);
    } else {
      p := RefutedUnset(a.v, a.op, a.val, ctx);
    }
  }

  /** The reader's answer for a comparison is right in every pipeline of the context exactly when
      the comparison is `Faithful`. */
  lemma AtomExact(a: Atom, ctx: Context)
    ensures Faithful(a, ctx) <==> forall p | InContext(p, ctx) :: Right(p, a, ctx)
  {
    if Faithful(a, ctx) {
      forall p | InContext(p, ctx) ensures Right(p, a, ctx) {
        FaithfulIsRight(p, a, ctx);
      }
    } else {
      var p := Refutation(a, ctx);
    }
  }

  // ----- `if:` expressions

  /** An `if:` is `||` of `&&` of comparisons, or text the reader gives up on. */
  datatype Cond = Dnf(ors: seq<seq<Atom>>) | Unreadable(text: string)

  predicate AllHold(p: Pipeline, ands: seq<Atom>) {
    forall i | 0 <= i < |ands| :: AtomHolds(p, ands[i])
  }

  predicate CondHolds(p: Pipeline, c: Cond) {
    match c
    case Unreadable(text) => p.unparsed(text)
    case Dnf(ors) => exists i | 0 <= i < |ors| :: AllHold(p, ors[i])
  }

  function AndVerdict(ands: seq<Atom>, ctx: Context): Option<bool> {
    if exists i | 0 <= i < |ands| :: AtomVerdict(ands[i], ctx) == Some(false) then Some(false)
    else if forall i | 0 <= i < |ands| :: AtomVerdict(ands[i], ctx) == Some(true) then Some(true)
    else None
  }

  function CondVerdict(c: Cond, ctx: Context): Option<bool> {
    if c.Unreadable? then None
    else if exists i | 0 <= i < |c.ors| :: AndVerdict(c.ors[i], ctx) == Some(true) then Some(true)
    else if forall i | 0 <= i < |c.ors| :: AndVerdict(c.ors[i], ctx) == Some(false) then Some(false)
    else None
  }

  /** Every comparison of the expression is answered rightly in this pipeline. */
  predicate Trusted(p: Pipeline, c: Cond, ctx: Context) {
    c.Dnf? ==> forall i, j | 0 <= i < |c.ors| && 0 <= j < |c.ors[i]| :: Right(p, c.ors[i][j], ctx)
  }

  lemma AndVerdictRight(p: Pipeline, ands: seq<Atom>, ctx: Context)
    requires forall j | 0 <= j < |ands| :: Right(p, ands[j], ctx)
    ensures AndVerdict(ands, ctx).Some? ==> AndVerdict(ands, ctx).value == AllHold(p, ands)
  {
  }

  /** A definite answer for a whole expression is the expression's value in the pipeline. */
  lemma CondVerdictRight(p: Pipeline, c: Cond, ctx: Context)
    requires Trusted(p, c, ctx)
    ensures CondVerdict(c, ctx).Some? ==> CondVerdict(c, ctx).value == CondHolds(p, c)
  {
    if c.Dnf? {
      forall i | 0 <= i < |c.ors|
        ensures AndVerdict(c.ors[i], ctx).Some? ==> AndVerdict(c.ors[i], ctx).value == AllHold(p, c.ors[i])
      {
        AndVerdictRight(p, c.ors[i], ctx);
      }
    }
  }

  // ----- rules

  /** One list item of `rules:`. */
  datatype Item = Item(cond: Option<Cond>, when: Option<string>, changes: bool, exists_: bool)

  /** The section as the reader finds it: none at all, one it cannot split, or its items. */
  datatype Rules = NoRules | Unsplit | Items(items: seq<Item>)

  datatype Fate = NotAdded | Added(when: string)

  const ON_SUCCESS := "on_success"
  const NEVER := "never"
  const MANUAL := "manual"

  /** `when` of the item, else of the job, else the default. */
  function EffectiveWhen(item: Item, jobWhen: string): string {
    if item.when.Some? && item.when.value != "" then item.when.value
    else if jobWhen != "" then jobWhen else ON_SUCCESS
  }

  predicate FileConditional(item: Item) { item.changes || item.exists_ }

  /** Whether an item's `changes:` and `exists:` are met in a pipeline. */
  datatype Files = Met | Unmet

  predicate IfHolds(p: Pipeline, item: Item) {
    item.cond.Some? ==> CondHolds(p, item.cond.value)
  }

  predicate ItemMatches(p: Pipeline, item: Item, files: Files) {
    IfHolds(p, item) && (FileConditional(item) ==> files.Met?)
  }

  /** GitLab's evaluation: the first matching item decides. `files[i]` says whether the file
      conditions of item `i` are met in this pipeline. */
  function FirstMatch(p: Pipeline, items: seq<Item>, files: seq<Files>, jobWhen: string): Fate
    requires |files| == |items|
  {
    if items == [] then NotAdded
    else if ItemMatches(p, items[0], files[0]) then
      (if EffectiveWhen(items[0], jobWhen) == NEVER then NotAdded else Added(EffectiveWhen(items[0], jobWhen)))
    else FirstMatch(p, items[1..], files[1..], jobWhen)
  }

  function ItemVerdict(item: Item, ctx: Context): Option<bool> {
    if item.cond.None? then Some(true) else CondVerdict(item.cond.value, ctx)
  }

  predicate TrustedItems(p: Pipeline, items: seq<Item>, ctx: Context) {
    forall i | 0 <= i < |items| && items[i].cond.Some? :: Trusted(p, items[i].cond.value, ctx)
  }

  lemma ItemVerdictRight(p: Pipeline, item: Item, files: Files, ctx: Context)
    requires TrustedItems(p, [item], ctx)
    ensures ItemVerdict(item, ctx) == Some(false) ==> !ItemMatches(p, item, files)
    ensures ItemVerdict(item, ctx) == Some(true) ==>
      ItemMatches(p, item, files) == (FileConditional(item) ==> files.Met?)
  {
    assert [item][0] == item;
    if item.cond.Some? {
      CondVerdictRight(p, item.cond.value, ctx);
    }
  }

  // ----- can the job run on a tag?

  function TagRunnable(items: seq<Item>): bool {
    if items == [] then false
    else
      var c := ItemVerdict(items[0], Tag);
      if c == Some(false) then TagRunnable(items[1..])
      else if items[0].when == Some(NEVER) then (if c == Some(true) then false else TagRunnable(items[1..]))
      else true
  }

  method RunsOnTag(rules: Rules) returns (runs: bool)
    ensures runs == (rules.Items? ==> TagRunnable(rules.items))
  {
    if !rules.Items? {
      return true;
    }
    var i := 0;
    while i < |rules.items|
      invariant 0 <= i <= |rules.items|
      invariant TagRunnable(rules.items[i..]) == TagRunnable(rules.items)
    {
      var item := rules.items[i];
      var c := ItemVerdict(item, Tag);
      assert rules.items[i..][1..] == rules.items[i + 1..];
      i := i + 1;
      if c == Some(false) {
        continue;
      }
      if item.when == Some(NEVER) {
        if c == Some(true) {
          return false;
        }
        continue;
      }
      return true;
    }
    return false;
  }

  /** On a tag pipeline `changes:` always holds. */
  predicate TagFiles(items: seq<Item>, files: seq<Files>) {
    |files| == |items| && forall i | 0 <= i < |items| && !items[i].exists_ :: files[i].Met?
  }

  /** Whether some answers to the `exists:` questions let GitLab add the job: an item says so whose
      condition holds, and every item before it that says `never` can be passed by missing files. */
  predicate CanAdd(p: Pipeline, items: seq<Item>, jobWhen: string) {
    items != [] &&
      if !IfHolds(p, items[0]) then CanAdd(p, items[1..], jobWhen)
      else if EffectiveWhen(items[0], jobWhen) != NEVER then true
      else items[0].exists_ && CanAdd(p, items[1..], jobWhen)
  }

  lemma {:induction false} AddedCanAdd(p: Pipeline, items: seq<Item>, files: seq<Files>, jobWhen: string)
    requires TagFiles(items, files) && FirstMatch(p, items, files, jobWhen).Added?
    ensures CanAdd(p, items, jobWhen)
  {
    if !ItemMatches(p, items[0], files[0]) {
      AddedCanAdd(p, items[1..], files[1..], jobWhen);
    }
  }

  lemma {:induction false} CanAddAdded(p: Pipeline, items: seq<Item>, jobWhen: string) returns (files: seq<Files>)
    requires CanAdd(p, items, jobWhen)
    ensures TagFiles(items, files) && FirstMatch(p, items, files, jobWhen).Added?
  {
    var rest := items[1..];
    if IfHolds(p, items[0]) && EffectiveWhen(items[0], jobWhen) != NEVER {
      return seq(|items|, _ => Met);
    }
    var later := CanAddAdded(p, rest, jobWhen);
    files := [if IfHolds(p, items[0]) then Unmet else Met] + later;
    assert files[1..] == later;
    assert forall i | 1 <= i < |items| :: items[i] == rest[i - 1] && files[i] == later[i - 1];
  }

  /** The place of the item at which the reader settles for "cannot run", past the end if none. */
  function Decider(items: seq<Item>): (i: nat)
    ensures i <= |items|
  {
    if items == [] || (ItemVerdict(items[0], Tag) == Some(true) && items[0].when == Some(NEVER)) then 0
    else 1 + Decider(items[1..])
  }

  /** No item before the reader's decision that says `never` regardless of files matches here. */
  predicate PassedTo(p: Pipeline, items: seq<Item>, d: nat)
    requires d <= |items|
  {
    forall i | 0 <= i < d && items[i].when == Some(NEVER) && !items[i].exists_ ::
      !IfHolds(p, items[i])
  }

  /** The reader's "cannot run" can fail here: it was settled by an `exists:` item, the pipeline gets
      that far, and what follows can add the job. */
  predicate MissesFiles(p: Pipeline, items: seq<Item>, jobWhen: string) {
    var d := Decider(items);
    d < |items| && items[d].exists_ && PassedTo(p, items, d) && CanAdd(p, items[d + 1..], jobWhen)
  }

  lemma {:induction false} MissesExactly(p: Pipeline, items: seq<Item>, jobWhen: string)
    requires TrustedItems(p, items, Tag) && !TagRunnable(items)
    ensures CanAdd(p, items, jobWhen) <==> MissesFiles(p, items, jobWhen)
  {
    if items != [] {
      var item, rest, d := items[0], items[1..], Decider(items);
      ItemVerdictRight(p, item, Met, Tag);
      if d > 0 {
        MissesExactly(p, rest, jobWhen);
        assert d < |items| ==> items[d + 1..] == rest[d..] && items[d] == rest[d - 1];
        assert forall i | 0 <= i < d - 1 :: rest[i] == items[i + 1];
        assert PassedTo(p, items, d) ==> forall i | 0 <= i < d - 1 :: items[i + 1] == rest[i];
        PassedStep(p, items, d);
      }
    }
  }

  lemma PassedStep(p: Pipeline, items: seq<Item>, d: nat)
    requires 0 < d <= |items|
    ensures PassedTo(p, items, d) <==>
      && (items[0].when == Some(NEVER) && !items[0].exists_ ==> !IfHolds(p, items[0]))
      && PassedTo(p, items[1..], d - 1)
  {
    var rest := items[1..];
    assert forall i | 0 <= i < d - 1 :: rest[i] == items[i + 1];
    assert forall i | 0 < i < d :: items[i] == rest[i - 1];
  }

  /** The reader's "cannot run" is right in a tag pipeline, whatever files exist, exactly unless a
      missing file takes it past its own decision to an item that adds the job. */
  lemma TagExact(p: Pipeline, items: seq<Item>, jobWhen: string)
    requires TrustedItems(p, items, Tag) && !TagRunnable(items)
    ensures (forall files | TagFiles(items, files) :: FirstMatch(p, items, files, jobWhen) == NotAdded)
       <==> !MissesFiles(p, items, jobWhen)
  {
    MissesExactly(p, items, jobWhen);
    if CanAdd(p, items, jobWhen) {
      var files := CanAddAdded(p, items, jobWhen);
    } else {
      forall files | TagFiles(items, files) ensures FirstMatch(p, items, files, jobWhen) == NotAdded {
        if FirstMatch(p, items, files, jobWhen).Added? {
          AddedCanAdd(p, items, files, jobWhen);
        }
      }
    }
  }

  /** `CanAdd` as the reader itself could work it out. */
  predicate ReadsAdd(items: seq<Item>, jobWhen: string) {
    items != [] &&
      if ItemVerdict(items[0], Tag) == Some(false) then ReadsAdd(items[1..], jobWhen)
      else if EffectiveWhen(items[0], jobWhen) != NEVER then true
      else items[0].exists_ && ReadsAdd(items[1..], jobWhen)
  }

  /** Where the reader can tell every condition, so can it tell whether its "cannot run" is right:
      without any pipeline at hand, by reading on past a decision that files can undo. */
  lemma TagExactWhenRead(p: Pipeline, items: seq<Item>, jobWhen: string)
    requires TrustedItems(p, items, Tag) && !TagRunnable(items)
    requires forall i | 0 <= i < |items| :: ItemVerdict(items[i], Tag).Some?
    ensures (forall files | TagFiles(items, files) :: FirstMatch(p, items, files, jobWhen) == NotAdded)
       <==> !ReadsAdd(items, jobWhen)
  {
    TagExact(p, items, jobWhen);
    MissesExactly(p, items, jobWhen);
    ReadsAddRight(p, items, jobWhen);
  }

  lemma {:induction false} ReadsAddRight(p: Pipeline, items: seq<Item>, jobWhen: string)
    requires TrustedItems(p, items, Tag) && forall i | 0 <= i < |items| :: ItemVerdict(items[i], Tag).Some?
    ensures ReadsAdd(items, jobWhen) == CanAdd(p, items, jobWhen)
  {
    if items != [] {
      if items[0].cond.Some? {
        CondVerdictRight(p, items[0].cond.value, Tag);
      }
      ReadsAddRight(p, items[1..], jobWhen);
    }
  }

  /** If the reader says a job cannot run on a tag, and not because of an `exists:` item, GitLab adds
      it to no tag pipeline. */
  lemma TagSound(p: Pipeline, items: seq<Item>, files: seq<Files>, jobWhen: string)
    requires TrustedItems(p, items, Tag) && TagFiles(items, files)
    requires !TagRunnable(items) && (Decider(items) < |items| ==> !items[Decider(items)].exists_)
    ensures FirstMatch(p, items, files, jobWhen) == NotAdded
  {
    TagExact(p, items, jobWhen);
  }

  /** The `exists:` proviso is needed: a `never` item whose files are missing lets the next item
      add the job, although the reader said it cannot run. */
  lemma ExistsBreaksTagSoundness(p: Pipeline)
    ensures exists items, files ::
      && TrustedItems(p, items, Tag) && TagFiles(items, files)
      && !TagRunnable(items) && FirstMatch(p, items, files, "") == Added(ON_SUCCESS)
  {
    var items := [Item(None, Some(NEVER), false, true), Item(None, None, false, false)];
    assert TagFiles(items, [Unmet, Met]);
    assert items[1..][0] == items[1];
    assert FirstMatch(p, items, [Unmet, Met], "") == FirstMatch(p, items[1..], [Unmet, Met][1..], "");
    assert !TagRunnable(items);
  }

  // ----- how does the job behave on main?

  datatype Outcome = Always | ManualPossible | Conditional | Unknown

  function MainItems(items: seq<Item>, jobWhen: string, manual: bool): Outcome {
    if items == [] then (if manual then ManualPossible else Conditional)
    else
      var c := ItemVerdict(items[0], Main);
      if c == Some(false) then MainItems(items[1..], jobWhen, manual)
      else
        var when := EffectiveWhen(items[0], jobWhen);
        var manual' := manual || when == MANUAL;
        if c == None then (if manual' then ManualPossible else Unknown)
        else if FileConditional(items[0]) then MainItems(items[1..], jobWhen, manual')
        else if when == NEVER then (if manual' then ManualPossible else Conditional)
        else if manual' then ManualPossible
        else Always
  }

  method MainOutcome(rules: Rules, jobWhen: string, mergeKey: bool) returns (outcome: Outcome)
    ensures outcome ==
      match rules
      case NoRules => if mergeKey then Unknown else if jobWhen == MANUAL then ManualPossible else Always
      case Unsplit => Unknown
      case Items(items) => MainItems(items, jobWhen, false)
  {
    if rules.NoRules? {
      return if mergeKey then Unknown else if jobWhen == MANUAL then ManualPossible else Always;
    }
    if rules.Unsplit? {
      return Unknown;
    }
    var manual, i := false, 0;
    while i < |rules.items|
      invariant 0 <= i <= |rules.items|
      invariant MainItems(rules.items[i..], jobWhen, manual) == MainItems(rules.items, jobWhen, false)
    {
      var item := rules.items[i];
      var c := ItemVerdict(item, Main);
      assert rules.items[i..][1..] == rules.items[i + 1..];
      i := i + 1;
      if c == Some(false) {
        continue;
      }
      var when := EffectiveWhen(item, jobWhen);
      if when == MANUAL {
        manual := true;
      }
      if c == None {
        return if manual then ManualPossible else Unknown;
      }
      if FileConditional(item) {
        continue;
      }
      if when == NEVER {
        return if manual then ManualPossible else Conditional;
      }
      if manual {
        return ManualPossible;
      }
      return Always;
    }
    return if manual then ManualPossible else Conditional;
  }

  /** A verdict of "always" or "conditional" means no main pipeline can make the job manual,
      whatever files changed. */
  lemma {:induction false} MainNeverManual(p: Pipeline, items: seq<Item>, files: seq<Files>, jobWhen: string,
        manual: bool)
    requires TrustedItems(p, items, Main) && |files| == |items|
    requires MainItems(items, jobWhen, manual).Always? || MainItems(items, jobWhen, manual).Conditional?
    ensures FirstMatch(p, items, files, jobWhen) != Added(MANUAL)
    ensures !manual
  {
    if items != [] {
      ItemVerdictRight(p, items[0], files[0], Main);
      var c := ItemVerdict(items[0], Main);
      if c == Some(false) || FileConditional(items[0]) {
        MainNeverManual(p, items[1..], files[1..], jobWhen, manual
          || (c != Some(false) && EffectiveWhen(items[0], jobWhen) == MANUAL));
      }
    }
  }

  /** Whether some file changes let GitLab add the job manually: an item does so whose condition
      holds, and every item before it can be passed. */
  predicate CanBeManual(p: Pipeline, items: seq<Item>, jobWhen: string) {
    items != [] &&
      if !IfHolds(p, items[0]) then CanBeManual(p, items[1..], jobWhen)
      else
        EffectiveWhen(items[0], jobWhen) == MANUAL || (FileConditional(items[0]) && CanBeManual(p, items[1..], jobWhen))
  }

  lemma {:induction false} ManualCanBe(p: Pipeline, items: seq<Item>, files: seq<Files>, jobWhen: string)
    requires |files| == |items| && FirstMatch(p, items, files, jobWhen) == Added(MANUAL)
    ensures CanBeManual(p, items, jobWhen)
  {
    if !ItemMatches(p, items[0], files[0]) {
      ManualCanBe(p, items[1..], files[1..], jobWhen);
    }
  }

  lemma {:induction false} CanBeManualFiles(p: Pipeline, items: seq<Item>, jobWhen: string) returns (files: seq<Files>)
    requires CanBeManual(p, items, jobWhen)
    ensures |files| == |items| && FirstMatch(p, items, files, jobWhen) == Added(MANUAL)
  {
    if IfHolds(p, items[0]) && EffectiveWhen(items[0], jobWhen) == MANUAL {
      return seq(|items|, _ => Met);
    }
    var later := CanBeManualFiles(p, items[1..], jobWhen);
    files := [Unmet] + later;
    assert files[1..] == later;
  }

  ghost predicate NeverMadeManual(p: Pipeline, items: seq<Item>, jobWhen: string) {
    forall files: seq<Files> {:induction false} | |files| == |items| ::
      FirstMatch(p, items, files, jobWhen) != Added(MANUAL)
  }

  /** Whether the job is never manual can be read off the items. */
  lemma NeverManualExact(p: Pipeline, items: seq<Item>, jobWhen: string)
    ensures NeverMadeManual(p, items, jobWhen) <==> !CanBeManual(p, items, jobWhen)
  {
    if CanBeManual(p, items, jobWhen) {
      var files := CanBeManualFiles(p, items, jobWhen);
      assert FirstMatch(p, items, files, jobWhen) == Added(MANUAL);
    } else {
      forall files: seq<Files> | |files| == |items| ensures FirstMatch(p, items, files, jobWhen) != Added(MANUAL) {
        if FirstMatch(p, items, files, jobWhen) == Added(MANUAL) {
          ManualCanBe(p, items, files, jobWhen);
        }
      }
    }
  }

  /** A job-level "manual" makes everything manual that another job-level `when` does. */
  lemma {:induction false} ManualIsWorst(p: Pipeline, items: seq<Item>, jobWhen: string)
    requires CanBeManual(p, items, jobWhen)
    ensures CanBeManual(p, items, MANUAL)
  {
    if !IfHolds(p, items[0]) || EffectiveWhen(items[0], MANUAL) != MANUAL {
      ManualIsWorst(p, items[1..], jobWhen);
    }
  }

  /** `CanBeManual` as the reader itself could work it out. */
  predicate ReadsManual(items: seq<Item>, jobWhen: string) {
    items != [] &&
      if ItemVerdict(items[0], Main) == Some(false) then ReadsManual(items[1..], jobWhen)
      else EffectiveWhen(items[0], jobWhen) == MANUAL || (FileConditional(items[0]) && ReadsManual(items[1..], jobWhen))
  }

  lemma {:induction false} ReadsManualRight(p: Pipeline, items: seq<Item>, jobWhen: string)
    requires TrustedItems(p, items, Main) && forall i | 0 <= i < |items| :: ItemVerdict(items[i], Main).Some?
    ensures ReadsManual(items, jobWhen) == CanBeManual(p, items, jobWhen)
  {
    if items != [] {
      if items[0].cond.Some? {
        CondVerdictRight(p, items[0].cond.value, Main);
      }
      ReadsManualRight(p, items[1..], jobWhen);
    }
  }

  /** Up to the deciding item, no file-conditional item that can match says `never`. */
  predicate NoConditionalNever(items: seq<Item>, jobWhen: string) {
    items != [] ==>
      if ItemVerdict(items[0], Main) == Some(false) then NoConditionalNever(items[1..], jobWhen)
      else FileConditional(items[0]) ==>
        EffectiveWhen(items[0], jobWhen) != NEVER && NoConditionalNever(items[1..], jobWhen)
  }

  /** Whether GitLab adds the job whatever the file conditions come to. */
  ghost predicate AddedWhateverChanged(p: Pipeline, items: seq<Item>, jobWhen: string) {
    forall files: seq<Files> {:induction false} | |files| == |items| :: FirstMatch(p, items, files, jobWhen).Added?
  }

  /** The same read off the items: one whose condition holds adds the job without asking for
      files, and none before it says `never`. */
  predicate AlwaysAdds(p: Pipeline, items: seq<Item>, jobWhen: string) {
    items != [] &&
      if !IfHolds(p, items[0]) then AlwaysAdds(p, items[1..], jobWhen)
      else
        EffectiveWhen(items[0], jobWhen) != NEVER && (FileConditional(items[0]) ==> AlwaysAdds(p, items[1..], jobWhen))
  }

  lemma {:induction false} AlwaysAddsFiles(p: Pipeline, items: seq<Item>, files: seq<Files>, jobWhen: string)
    requires |files| == |items| && AlwaysAdds(p, items, jobWhen)
    ensures FirstMatch(p, items, files, jobWhen).Added?
  {
    if !ItemMatches(p, items[0], files[0]) {
      AlwaysAddsFiles(p, items[1..], files[1..], jobWhen);
    }
  }

  lemma {:induction false} NotAlwaysAdds(p: Pipeline, items: seq<Item>, jobWhen: string) returns (files: seq<Files>)
    requires !AlwaysAdds(p, items, jobWhen)
    ensures |files| == |items| && FirstMatch(p, items, files, jobWhen) == NotAdded
  {
    if items == [] {
      return [];
    }
    if IfHolds(p, items[0]) && EffectiveWhen(items[0], jobWhen) == NEVER {
      return seq(|items|, _ => Met);
    }
    var later := NotAlwaysAdds(p, items[1..], jobWhen);
    files := [Unmet] + later;
    assert files[1..] == later;
  }

  /** Whether the job is always added can be read off the items. */
  lemma AddedExact(p: Pipeline, items: seq<Item>, jobWhen: string)
    ensures AddedWhateverChanged(p, items, jobWhen) <==> AlwaysAdds(p, items, jobWhen)
  {
    if AlwaysAdds(p, items, jobWhen) {
      forall files: seq<Files> | |files| == |items| ensures FirstMatch(p, items, files, jobWhen).Added? {
        AlwaysAddsFiles(p, items, files, jobWhen);
      }
    } else {
      var files := NotAlwaysAdds(p, items, jobWhen);
      assert FirstMatch(p, items, files, jobWhen) == NotAdded;
    }
  }

  /** A job-level "never" takes away everything that another job-level `when` does. */
  lemma {:induction false} NeverIsWorst(p: Pipeline, items: seq<Item>, jobWhen: string)
    requires AlwaysAdds(p, items, NEVER)
    ensures AlwaysAdds(p, items, jobWhen)
  {
    if !IfHolds(p, items[0]) || FileConditional(items[0]) {
      NeverIsWorst(p, items[1..], jobWhen);
    }
  }

  /** "Always" is true to its name exactly when no skipped file-conditional item says `never`. */
  lemma MainAlwaysExact(p: Pipeline, items: seq<Item>, jobWhen: string, manual: bool)
    requires TrustedItems(p, items, Main) && MainItems(items, jobWhen, manual) == Always
    ensures AddedWhateverChanged(p, items, jobWhen) <==> NoConditionalNever(items, jobWhen)
  {
    AddedExact(p, items, jobWhen);
    AlwaysAddsRead(p, items, jobWhen, manual);
  }

  lemma {:induction false} AlwaysAddsRead(p: Pipeline, items: seq<Item>, jobWhen: string, manual: bool)
    requires TrustedItems(p, items, Main) && MainItems(items, jobWhen, manual) == Always
    ensures AlwaysAdds(p, items, jobWhen) <==> NoConditionalNever(items, jobWhen)
  {
    var c := ItemVerdict(items[0], Main);
    if items[0].cond.Some? {
      CondVerdictRight(p, items[0].cond.value, Main);
    }
    if c == Some(false) || FileConditional(items[0]) {
      AlwaysAddsRead(p, items[1..], jobWhen, manual
        || (c != Some(false) && EffectiveWhen(items[0], jobWhen) == MANUAL));
    }
  }

  /** Such an item makes the verdict wrong: with these rules the reader says "always", and a push
      that changes the files adds no job. */
  lemma AlwaysCanBeWrong(p: Pipeline)
    ensures exists items ::
      TrustedItems(p, items, Main) && MainItems(items, "", false) == Always && !AddedWhateverChanged(p, items, "")
  {
    var items := [Item(None, Some(NEVER), true, false), Item(None, None, false, false)];
    assert items[1..][0] == items[1];
    assert MainItems(items[1..], "", false) == Always;
    assert MainItems(items, "", false) == Always;
    assert FirstMatch(p, items, [Met, Met], "") == NotAdded;
    assert TrustedItems(p, items, Main);
  }

  /** In a pipeline of the context, faithful comparisons make an item list trusted. */
  lemma FaithfulItemsTrusted(p: Pipeline, items: seq<Item>, ctx: Context)
    requires InContext(p, ctx)
    requires forall i | 0 <= i < |items| && items[i].cond.Some? && items[i].cond.value.Dnf? ::
      forall j, k | 0 <= j < |items[i].cond.value.ors| && 0 <= k < |items[i].cond.value.ors[j]| ::
        Faithful(items[i].cond.value.ors[j][k], ctx)
    ensures TrustedItems(p, items, ctx)
  {
    forall i | 0 <= i < |items| && items[i].cond.Some? ensures Trusted(p, items[i].cond.value, ctx) {
      var c := items[i].cond.value;
      if c.Dnf? {
        forall j, k | 0 <= j < |c.ors| && 0 <= k < |c.ors[j]| ensures Right(p, c.ors[j][k], ctx) {
          FaithfulIsRight(p, c.ors[j][k], ctx);
        }
      }
    }
  }
}
