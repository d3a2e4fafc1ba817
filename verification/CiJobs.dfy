/** Whole jobs of a CI file: what the reader answers from the sections it looks up, against what
    happens to the job that GitLab builds. */
module CiJobs {
  import opened Common
  import opened CiRules
  import opened CiInheritance

  /** The section texts in use: the items GitLab sees in each, and which of them the reader can split. */
  datatype Syntax = Syntax(sections: map<string, seq<Item>>, splits: set<string>) {
    function Items(text: string): seq<Item> {
      if text in sections then sections[text] else []
    }
  }

  function RulesOf(section: Option<string>, syntax: Syntax): Rules {
    match section
    case None => NoRules
    case Some(text) => if text in syntax.splits then Rules.Items(syntax.Items(text)) else Unsplit
  }

  function WhenOf(section: Option<string>): string {
    if section.Some? then section.value else ""
  }

  // ----- the reader

  function RulesRead(blocks: Blocks, name: string, syntax: Syntax): Rules {
    RulesOf(Effective(blocks, name, "rules", {}), syntax)
  }

  function WhenRead(blocks: Blocks, name: string): string {
    WhenOf(Effective(blocks, name, "when", {}))
  }

  function TagAnswer(blocks: Blocks, name: string, syntax: Syntax): bool {
    var rules := RulesRead(blocks, name, syntax);
    rules.Items? ==> TagRunnable(rules.items)
  }

  function MainAnswer(blocks: Blocks, name: string, syntax: Syntax): Outcome {
    var jobWhen := WhenRead(blocks, name);
    match RulesRead(blocks, name, syntax)
    case NoRules => if HasMergeKey(blocks, name, {}) then Unknown else if jobWhen == MANUAL then ManualPossible
      else Always
    case Unsplit => Unknown
    case Items(items) => MainItems(items, jobWhen, false)
  }

  method RunsOnTag(blocks: Blocks, name: string, syntax: Syntax) returns (runs: bool)
    ensures runs == TagAnswer(blocks, name, syntax)
  {
    var rules := Lookup(blocks, name, "rules", {});
    runs := CiRules.RunsOnTag(RulesOf(rules, syntax));
  }

  method MainOutcome(blocks: Blocks, name: string, syntax: Syntax) returns (outcome: Outcome)
    ensures outcome == MainAnswer(blocks, name, syntax)
  {
    var jobWhen := Lookup(blocks, name, "when", {});
    var rules := Lookup(blocks, name, "rules", {});
    outcome := CiRules.MainOutcome(RulesOf(rules, syntax), WhenOf(jobWhen), HasMergeKey(blocks, name, {}));
  }

  // ----- GitLab

  /** What happens to a built job in a pipeline; without rules it is added. */
  function JobFate(p: Pipeline, job: map<string, string>, syntax: Syntax, files: seq<Files>): Fate
    requires "rules" in job ==> |files| == |syntax.Items(job["rules"])|
  {
    var jobWhen := WhenOf(At(job, "when"));
    if "rules" in job then FirstMatch(p, syntax.Items(job["rules"]), files, jobWhen)
    else if jobWhen == NEVER then NotAdded
    else Added(if jobWhen != "" then jobWhen else ON_SUCCESS)
  }

  /** Every possible state of the files that the rules ask for. */
  ghost predicate ForFiles(job: map<string, string>, syntax: Syntax, files: seq<Files>) {
    |files| == if "rules" in job then |syntax.Items(job["rules"])| else 0
  }

  ghost predicate NeverOnTag(p: Pipeline, job: map<string, string>, syntax: Syntax) {
    forall files {:induction false} | ForFiles(job, syntax, files)
      && ("rules" in job ==> TagFiles(syntax.Items(job["rules"]), files)) ::
      JobFate(p, job, syntax, files) == NotAdded
  }

  ghost predicate NeverManual(p: Pipeline, job: map<string, string>, syntax: Syntax) {
    forall files {:induction false} | ForFiles(job, syntax, files) :: JobFate(p, job, syntax, files) != Added(MANUAL)
  }

  ghost predicate AlwaysAdded(p: Pipeline, job: map<string, string>, syntax: Syntax) {
    forall files {:induction false} | ForFiles(job, syntax, files) :: JobFate(p, job, syntax, files).Added?
  }

  /** What becomes of a job with these sections can be read off them. */
  lemma TagFate(p: Pipeline, job: map<string, string>, syntax: Syntax)
    ensures var w := WhenOf(At(job, "when"));
      NeverOnTag(p, job, syntax) <==> if "rules" in job then !CanAdd(p, syntax.Items(job["rules"]), w) else w == NEVER
  {
    hide CanAdd, FirstMatch;
    var w := WhenOf(At(job, "when"));
    if "rules" !in job {
      assert ForFiles(job, syntax, []);
    } else if CanAdd(p, syntax.Items(job["rules"]), w) {
      var files := CanAddAdded(p, syntax.Items(job["rules"]), w);
      assert JobFate(p, job, syntax, files) != NotAdded;
    } else {
      var items := syntax.Items(job["rules"]);
      forall files | TagFiles(items, files) ensures FirstMatch(p, items, files, w) == NotAdded {
        if FirstMatch(p, items, files, w).Added? {
          AddedCanAdd(p, items, files, w);
        }
      }
    }
  }

  lemma ManualFate(p: Pipeline, job: map<string, string>, syntax: Syntax)
    ensures var w := WhenOf(At(job, "when"));
      NeverManual(p, job, syntax) <==> if "rules" in job then !CanBeManual(p, syntax.Items(job["rules"]), w)
        else w != MANUAL
  {
    hide CanBeManual, FirstMatch;
    var w := WhenOf(At(job, "when"));
    if "rules" !in job {
      assert ForFiles(job, syntax, []);
    } else if CanBeManual(p, syntax.Items(job["rules"]), w) {
      var files := CanBeManualFiles(p, syntax.Items(job["rules"]), w);
      assert JobFate(p, job, syntax, files) == Added(MANUAL);
    } else {
      NeverManualExact(p, syntax.Items(job["rules"]), w);
    }
  }

  lemma AddedFate(p: Pipeline, job: map<string, string>, syntax: Syntax)
    ensures var w := WhenOf(At(job, "when"));
      AlwaysAdded(p, job, syntax) <==> if "rules" in job then AlwaysAdds(p, syntax.Items(job["rules"]), w)
        else w != NEVER
  {
    hide AlwaysAdds, FirstMatch;
    var w := WhenOf(At(job, "when"));
    if "rules" !in job {
      assert ForFiles(job, syntax, []);
    } else if !AlwaysAdds(p, syntax.Items(job["rules"]), w) {
      var files := NotAlwaysAdds(p, syntax.Items(job["rules"]), w);
      assert JobFate(p, job, syntax, files) == NotAdded;
    } else {
      AddedExact(p, syntax.Items(job["rules"]), w);
    }
  }

  // ----- what the file shows of a job's fate

  /** The job-level `when` that the built job may have at worst. */
  function WorstWhen(blocks: Blocks, name: string, worst: string): string {
    match SightOf(blocks, name, "when", {})
    case Found(text) => text
    case Absent => ""
    case Hidden => worst
  }

  /** Some section adds the job with this `when`. */
  predicate Writes(syntax: Syntax, text: string, when: string) {
    syntax.Items(text) == [Item(None, Some(when), false, false)]
  }

  /** Contents that make a hidden `when` the worst, and leave every shown section as it is. */
  lemma WorstIsBrought(blocks: Blocks, name: string, worst: string)
    ensures var job := Built(blocks, AllBring(blocks, "when", worst), name, {});
      && WhenOf(At(job, "when")) == WorstWhen(blocks, name, worst)
      && Shows(SightOf(blocks, name, "rules", {}), At(job, "rules"))
  {
    hide Built, SightOf;
    BuiltShows(blocks, AllBring(blocks, "when", worst), name, "when", {});
    BuiltShows(blocks, AllBring(blocks, "when", worst), name, "rules", {});
    if SightOf(blocks, name, "when", {}).Hidden? {
      BuiltHides(blocks, name, "when", {}, worst);
    }
  }

  lemma WhenIsAtWorst(blocks: Blocks, contents: Contents, name: string, worst: string)
    ensures var job := Built(blocks, contents, name, {});
      && Shows(SightOf(blocks, name, "rules", {}), At(job, "rules"))
      && (WhenOf(At(job, "when")) == WorstWhen(blocks, name, worst) || WorstWhen(blocks, name, worst) == worst)
  {
    hide Built, SightOf;
    BuiltShows(blocks, contents, name, "when", {});
    BuiltShows(blocks, contents, name, "rules", {});
  }

  lemma WrittenFate(p: Pipeline, syntax: Syntax, text: string, when: string, job: map<string, string>)
    requires Writes(syntax, text, when) && At(job, "rules") == Some(text) && when != ""
    ensures JobFate(p, job, syntax, [Met]) == if when == NEVER then NotAdded else Added(when)
    ensures ForFiles(job, syntax, [Met]) && TagFiles(syntax.Items(text), [Met])
  {}

  /** A job-level `when` other than "never" can only help an item to add the job. */
  lemma {:induction false} CanAddOnSuccess(p: Pipeline, items: seq<Item>, jobWhen: string)
    requires CanAdd(p, items, jobWhen)
    ensures CanAdd(p, items, ON_SUCCESS)
  {
    if EffectiveWhen(items[0], ON_SUCCESS) == NEVER || !IfHolds(p, items[0]) {
      CanAddOnSuccess(p, items[1..], jobWhen);
    }
  }

  /** No tag pipeline adds the job, as far as the file shows: its rules are in sight and cannot add
      it, whatever the job's `when` may be. */
  predicate KeptOffTags(p: Pipeline, blocks: Blocks, name: string, syntax: Syntax) {
    match SightOf(blocks, name, "rules", {})
    case Hidden => false
    case Absent => WorstWhen(blocks, name, ON_SUCCESS) == NEVER
    case Found(text) => !CanAdd(p, syntax.Items(text), WorstWhen(blocks, name, ON_SUCCESS))
  }

  /** No main pipeline makes the job manual, as far as the file shows. */
  predicate KeptAutomatic(p: Pipeline, blocks: Blocks, name: string, syntax: Syntax) {
    match SightOf(blocks, name, "rules", {})
    case Hidden => false
    case Absent => WorstWhen(blocks, name, MANUAL) != MANUAL
    case Found(text) => !CanBeManual(p, syntax.Items(text), WorstWhen(blocks, name, MANUAL))
  }

  /** Every main pipeline adds the job whatever changed, as far as the file shows. */
  predicate KeptAlways(p: Pipeline, blocks: Blocks, name: string, syntax: Syntax) {
    match SightOf(blocks, name, "rules", {})
    case Hidden => false
    case Absent => WorstWhen(blocks, name, NEVER) != NEVER
    case Found(text) => AlwaysAdds(p, syntax.Items(text), WorstWhen(blocks, name, NEVER))
  }

  /** The file shows exactly whether any tag pipeline adds the built job. */
  lemma TagShown(p: Pipeline, blocks: Blocks, name: string, syntax: Syntax, adds: string)
    requires Writes(syntax, adds, ON_SUCCESS)
    ensures (forall contents :: NeverOnTag(p, Built(blocks, contents, name, {}), syntax)) <==>
      KeptOffTags(p, blocks, name, syntax)
  {
    hide Built, SightOf, CanAdd, NeverOnTag, JobFate;
    if SightOf(blocks, name, "rules", {}).Hidden? {
      var job := Built(blocks, AllBring(blocks, "rules", adds), name, {});
      BuiltHides(blocks, name, "rules", {}, adds);
      TagFate(p, job, syntax);
      WrittenCanAdd(p, syntax, adds, WhenOf(At(job, "when")));
    } else {
      var job := Built(blocks, AllBring(blocks, "when", ON_SUCCESS), name, {});
      WorstIsBrought(blocks, name, ON_SUCCESS);
      TagFate(p, job, syntax);
      if KeptOffTags(p, blocks, name, syntax) {
        forall contents ensures NeverOnTag(p, Built(blocks, contents, name, {}), syntax) {
          var other := Built(blocks, contents, name, {});
          WhenIsAtWorst(blocks, contents, name, ON_SUCCESS);
          TagFate(p, other, syntax);
          if "rules" in other && CanAdd(p, syntax.Items(other["rules"]), WhenOf(At(other, "when"))) {
            CanAddOnSuccess(p, syntax.Items(other["rules"]), WhenOf(At(other, "when")));
          }
        }
      }
    }
  }

  lemma WrittenCanAdd(p: Pipeline, syntax: Syntax, text: string, jobWhen: string)
    requires Writes(syntax, text, ON_SUCCESS)
    ensures CanAdd(p, syntax.Items(text), jobWhen)
  {
  }

  /** The file shows exactly whether any main pipeline makes the built job manual. */
  lemma ManualShown(p: Pipeline, blocks: Blocks, name: string, syntax: Syntax, manual: string)
    requires Writes(syntax, manual, MANUAL)
    ensures (forall contents :: NeverManual(p, Built(blocks, contents, name, {}), syntax)) <==>
      KeptAutomatic(p, blocks, name, syntax)
  {
    hide Built, SightOf, CanBeManual, NeverManual, JobFate;
    if SightOf(blocks, name, "rules", {}).Hidden? {
      var job := Built(blocks, AllBring(blocks, "rules", manual), name, {});
      BuiltHides(blocks, name, "rules", {}, manual);
      ManualFate(p, job, syntax);
      WrittenCanBeManual(p, syntax, manual, WhenOf(At(job, "when")));
    } else {
      var job := Built(blocks, AllBring(blocks, "when", MANUAL), name, {});
      WorstIsBrought(blocks, name, MANUAL);
      ManualFate(p, job, syntax);
      if KeptAutomatic(p, blocks, name, syntax) {
        forall contents ensures NeverManual(p, Built(blocks, contents, name, {}), syntax) {
          var other := Built(blocks, contents, name, {});
          WhenIsAtWorst(blocks, contents, name, MANUAL);
          ManualFate(p, other, syntax);
          if "rules" in other && CanBeManual(p, syntax.Items(other["rules"]), WhenOf(At(other, "when"))) {
            ManualIsWorst(p, syntax.Items(other["rules"]), WhenOf(At(other, "when")));
          }
        }
      }
    }
  }

  lemma WrittenCanBeManual(p: Pipeline, syntax: Syntax, text: string, jobWhen: string)
    requires Writes(syntax, text, MANUAL)
    ensures CanBeManual(p, syntax.Items(text), jobWhen)
  {
  }

  /** The file shows exactly whether every main pipeline adds the built job. */
  lemma AddedShown(p: Pipeline, blocks: Blocks, name: string, syntax: Syntax, never: string)
    requires Writes(syntax, never, NEVER)
    ensures (forall contents :: AlwaysAdded(p, Built(blocks, contents, name, {}), syntax)) <==>
      KeptAlways(p, blocks, name, syntax)
  {
    hide Built, SightOf, AlwaysAdds, AlwaysAdded, JobFate;
    if SightOf(blocks, name, "rules", {}).Hidden? {
      var job := Built(blocks, AllBring(blocks, "rules", never), name, {});
      BuiltHides(blocks, name, "rules", {}, never);
      AddedFate(p, job, syntax);
      WrittenNeverAdds(p, syntax, never, WhenOf(At(job, "when")));
    } else {
      var job := Built(blocks, AllBring(blocks, "when", NEVER), name, {});
      WorstIsBrought(blocks, name, NEVER);
      AddedFate(p, job, syntax);
      if KeptAlways(p, blocks, name, syntax) {
        forall contents ensures AlwaysAdded(p, Built(blocks, contents, name, {}), syntax) {
          var other := Built(blocks, contents, name, {});
          WhenIsAtWorst(blocks, contents, name, NEVER);
          AddedFate(p, other, syntax);
          if "rules" in other && AlwaysAdds(p, syntax.Items(other["rules"]), NEVER) {
            NeverIsWorst(p, syntax.Items(other["rules"]), WhenOf(At(other, "when")));
          }
        }
      }
    }
  }

  lemma WrittenNeverAdds(p: Pipeline, syntax: Syntax, text: string, jobWhen: string)
    requires Writes(syntax, text, NEVER)
    ensures !AlwaysAdds(p, syntax.Items(text), jobWhen)
  {
  }

  // ----- whole jobs

  /** The reader found the very section that the built job has. */
  predicate SectionRead(blocks: Blocks, name: string, key: string) {
    SightOf(blocks, name, key, {}) == Read(Effective(blocks, name, key, {}))
  }

  /** The reader's "cannot run on a tag" is right whatever the unresolved merges bring and whatever
      files exist exactly if the rules of the built job are in sight and, where they are the ones
      that were read, no missing file takes a tag past the decision to an item that adds the job,
      and where they are others, these cannot add it. */
  lemma JobTagExact(p: Pipeline, blocks: Blocks, name: string, syntax: Syntax, adds: string)
    requires Writes(syntax, adds, ON_SUCCESS)
    requires var rules := RulesRead(blocks, name, syntax);
      rules.Items? && !TagRunnable(rules.items) && TrustedItems(p, rules.items, Tag)
    ensures (forall contents :: NeverOnTag(p, Built(blocks, contents, name, {}), syntax))
       <==> if SectionRead(blocks, name, "rules")
            then !MissesFiles(p, RulesRead(blocks, name, syntax).items, WorstWhen(blocks, name, ON_SUCCESS))
            else KeptOffTags(p, blocks, name, syntax)
  {
    hide Built, SightOf, Effective, CanAdd, MissesFiles, TagRunnable, TrustedItems, NeverOnTag, Writes;
    TagShown(p, blocks, name, syntax, adds);
    if SectionRead(blocks, name, "rules") {
      MissesExactly(p, RulesRead(blocks, name, syntax).items, WorstWhen(blocks, name, ON_SUCCESS));
    }
  }

  /** "Always" and "conditional" exclude a manual job whatever the unresolved merges bring exactly if
      the file shows so; it does if the built job's rules and `when` are the ones that were read. */
  lemma JobMainExact(p: Pipeline, blocks: Blocks, name: string, syntax: Syntax, manual: string)
    requires Writes(syntax, manual, MANUAL)
    requires MainAnswer(blocks, name, syntax).Always? || MainAnswer(blocks, name, syntax).Conditional?
    requires var rules := RulesRead(blocks, name, syntax); rules.Items? ==> TrustedItems(p, rules.items, Main)
    ensures (forall contents :: NeverManual(p, Built(blocks, contents, name, {}), syntax)) <==>
      KeptAutomatic(p, blocks, name, syntax)
    ensures SectionRead(blocks, name, "rules") && SectionRead(blocks, name, "when") ==>
      KeptAutomatic(p, blocks, name, syntax)
  {
    hide Built, SightOf, Effective, CanBeManual, MainItems, TrustedItems, HasMergeKey, NeverManual, Writes;
    ManualShown(p, blocks, name, syntax, manual);
    if SectionRead(blocks, name, "rules") && SectionRead(blocks, name, "when") {
      var rules, jobWhen := RulesRead(blocks, name, syntax), WhenRead(blocks, name);
      assert WorstWhen(blocks, name, MANUAL) == jobWhen;
      if rules.Items? && CanBeManual(p, rules.items, jobWhen) {
        var files := CanBeManualFiles(p, rules.items, jobWhen);
        MainNeverManual(p, rules.items, files, jobWhen, false);
      }
    }
  }

  /** "Always" is true to its name whatever changed and whatever the unresolved merges bring exactly
      if the file shows so; where the built job's sections are the ones that were read, exactly if
      no skipped file-conditional item says `never`. */
  lemma JobAlwaysExact(p: Pipeline, blocks: Blocks, name: string, syntax: Syntax, never: string)
    requires Writes(syntax, never, NEVER)
    requires MainAnswer(blocks, name, syntax).Always?
    requires var rules := RulesRead(blocks, name, syntax); rules.Items? ==> TrustedItems(p, rules.items, Main)
    ensures (forall contents :: AlwaysAdded(p, Built(blocks, contents, name, {}), syntax)) <==>
      KeptAlways(p, blocks, name, syntax)
    ensures SectionRead(blocks, name, "rules") && SectionRead(blocks, name, "when") ==>
      var rules, jobWhen := RulesRead(blocks, name, syntax), WhenRead(blocks, name);
      KeptAlways(p, blocks, name, syntax) <==>
        if rules.Items? then NoConditionalNever(rules.items, jobWhen) else jobWhen != NEVER
  {
    hide Built, SightOf, Effective, AlwaysAdds, MainItems, TrustedItems, HasMergeKey, NoConditionalNever,
      AlwaysAdded, Writes;
    AddedShown(p, blocks, name, syntax, never);
    if SectionRead(blocks, name, "rules") && SectionRead(blocks, name, "when") {
      var rules, jobWhen := RulesRead(blocks, name, syntax), WhenRead(blocks, name);
      assert WorstWhen(blocks, name, NEVER) == jobWhen;
      if rules.Items? {
        AlwaysAddsRead(p, rules.items, jobWhen, false);
      }
    }
  }

  // ----- for which merges and `extends:` a tag answer can be relied on

  /** Where the reader says "cannot run", and no `exists:` item settled it, that is right whatever
      the unresolved merges bring. */
  ghost predicate TagReliable(p: Pipeline, blocks: Blocks, name: string, syntax: Syntax) {
    var rules := RulesRead(blocks, name, syntax);
    rules.Items? && !TagRunnable(rules.items) && TrustedItems(p, rules.items, Tag)
    && (Decider(rules.items) < |rules.items| ==> !rules.items[Decider(rules.items)].exists_) ==>
      forall contents :: NeverOnTag(p, Built(blocks, contents, name, {}), syntax)
  }

  /** With given merges and `extends:`, the answer for a tag can be relied on whatever keys the blocks
      have exactly if the reader's order, repetitions apart, is a beginning of the order in which the
      built job is laid. */
  lemma TagOrdersExact(p: Pipeline, blocks: Blocks, name: string, syntax: Syntax, never: string, adds: string)
    requires Writes(syntax, adds, ON_SUCCESS) && Writes(syntax, never, NEVER) && never in syntax.splits
    ensures (forall own :: TagReliable(p, With(blocks, own), name, syntax)) <==>
      Firsts(ReadOrder(blocks, name, {}), {}) <= Firsts(BuildOrder(blocks, name, {}), {})
  {
    hide TagReliable, With, ReadOrder, BuildOrder, Firsts, Writes;
    var read, build := Firsts(ReadOrder(blocks, name, {}), {}), Firsts(BuildOrder(blocks, name, {}), {});
    if read <= build {
      forall own ensures TagReliable(p, With(blocks, own), name, syntax) {
        BeginningIsReliable(p, blocks, own, name, syntax, adds);
      }
    } else {
      var own := OtherOrderFails(p, blocks, name, syntax, never, adds);
      assert !TagReliable(p, With(blocks, own), name, syntax);
    }
  }

  lemma SectionsFirst(blocks: Blocks, own: Keys, name: string, key: string)
    ensures Read(Effective(With(blocks, own), name, key, {}))
      == FirstOf(own, Firsts(ReadOrder(blocks, name, {}), {}), key)
    ensures SightOf(With(blocks, own), name, key, {}) == FirstOf(own, Firsts(BuildOrder(blocks, name, {}), {}), key)
  {
    ReadFirst(blocks, own, name, key, {});
    BuildFirst(blocks, own, name, key, {});
    FirstsFindTheSame(own, ReadOrder(blocks, name, {}), {}, key);
    FirstsFindTheSame(own, BuildOrder(blocks, name, {}), {}, key);
  }

  lemma BeginningIsReliable(p: Pipeline, blocks: Blocks, own: Keys, name: string, syntax: Syntax, adds: string)
    requires Writes(syntax, adds, ON_SUCCESS)
    requires Firsts(ReadOrder(blocks, name, {}), {}) <= Firsts(BuildOrder(blocks, name, {}), {})
    ensures TagReliable(p, With(blocks, own), name, syntax)
  {
    hide With, ReadOrder, BuildOrder, Firsts, FirstOf, Writes, Effective, SightOf, Built, NeverOnTag, TagRunnable,
      Decider,
      TrustedItems;
    var read, build := Firsts(ReadOrder(blocks, name, {}), {}), Firsts(BuildOrder(blocks, name, {}), {});
    var rules := RulesRead(With(blocks, own), name, syntax);
    SectionsFirst(blocks, own, name, "rules");
    assert build == read + build[|read|..];
    FirstOfConcat(own, read, build[|read|..], "rules");
    if rules.Items? && !TagRunnable(rules.items) && TrustedItems(p, rules.items, Tag) {
      assert SectionRead(With(blocks, own), name, "rules");
      JobTagExact(p, With(blocks, own), name, syntax, adds);
      if Decider(rules.items) < |rules.items| ==> !rules.items[Decider(rules.items)].exists_ {
        assert !MissesFiles(p, rules.items, WorstWhen(With(blocks, own), name, ON_SUCCESS));
        assert forall contents :: NeverOnTag(p, Built(With(blocks, own), contents, name, {}), syntax);
      }
    }
  }

  lemma OtherOrderFails(p: Pipeline, blocks: Blocks, name: string, syntax: Syntax, never: string, adds: string)
      returns (own: Keys)
    requires Writes(syntax, adds, ON_SUCCESS) && Writes(syntax, never, NEVER) && never in syntax.splits
    requires !(Firsts(ReadOrder(blocks, name, {}), {}) <= Firsts(BuildOrder(blocks, name, {}), {}))
    ensures !TagReliable(p, With(blocks, own), name, syntax)
  {
    hide With, ReadOrder, BuildOrder, Firsts, FirstOf, Effective, SightOf, Built, NeverOnTag;
    var read, build := Firsts(ReadOrder(blocks, name, {}), {}), Firsts(BuildOrder(blocks, name, {}), {});
    FirstsAreOnce(ReadOrder(blocks, name, {}), {});
    FirstsAreOnce(BuildOrder(blocks, name, {}), {});
    ReadOrderResolved(blocks, name, {});
    var i := FirstDifference(read, build);
    assert read[..|read|] == read && i < |read|;
    assert read[i] in read && read[i].Anchor?;
    own := map[read[i].name := map["rules" := never]];
    if i < |build| && build[i].Anchor? {
      own := own[build[i].name := map["rules" := adds]];
    }
    forall j | 0 <= j < i ensures SightAt(own, read[j], "rules").Absent? && read[j] == build[j] {
      assert read[..i][j] == build[..i][j] && read[j] in read && read[j] != read[i];
      assert i < |build| ==> build[j] != build[i];
    }
    StartsAt(own, read, i, "rules");
    StartsAt(own, build, i, "rules");
    SectionsFirst(blocks, own, name, "rules");
    NoWhen(blocks, own, name);
    NeverIsRead(p, With(blocks, own), name, syntax, never);
    TagShown(p, With(blocks, own), name, syntax, adds);
    WrittenCanAdd(p, syntax, adds, WorstWhen(With(blocks, own), name, ON_SUCCESS));
    assert !KeptOffTags(p, With(blocks, own), name, syntax);
  }

  /** Without a `when` of any block, the built job's is not "never" unless it is hidden. */
  lemma NoWhen(blocks: Blocks, own: Keys, name: string)
    requires forall b | b in own :: "when" !in own[b]
    ensures WorstWhen(With(blocks, own), name, ON_SUCCESS) != NEVER
  {
    hide With, BuildOrder, Firsts, SightOf;
    SectionsFirst(blocks, own, name, "when");
    NothingFound(own, Firsts(BuildOrder(blocks, name, {}), {}), "when");
  }

  lemma {:induction false} NothingFound(own: Keys, order: seq<Merge>, key: string)
    requires forall b | b in own :: key !in own[b]
    ensures !FirstOf(own, order, key).Found?
  {
    if order != [] {
      NothingFound(own, order[1..], key);
    }
  }

  /** The reader takes a section that says `never` for a job that cannot run. */
  lemma NeverIsRead(p: Pipeline, blocks: Blocks, name: string, syntax: Syntax, never: string)
    requires Writes(syntax, never, NEVER) && never in syntax.splits
      && Effective(blocks, name, "rules", {}) == Some(never)
    ensures var rules := RulesRead(blocks, name, syntax);
      && rules.Items? && !TagRunnable(rules.items) && TrustedItems(p, rules.items, Tag)
      && Decider(rules.items) == 0 && !rules.items[0].exists_
  {
    hide Effective;
  }

  // ----- where anchored blocks extend nothing

  /** There a section is read rightly exactly if no unresolved merge outranks where it was found, and
      the answer for a tag is right exactly if that and no missing file makes it wrong. */
  lemma JobTagPlain(p: Pipeline, blocks: Blocks, name: string, syntax: Syntax, adds: string)
    requires PlainMerges(blocks) && Writes(syntax, adds, ON_SUCCESS)
    requires var rules := RulesRead(blocks, name, syntax);
      rules.Items? && !TagRunnable(rules.items) && TrustedItems(p, rules.items, Tag)
    ensures var worst := if Blind(blocks, name, "when", {}) then ON_SUCCESS else WhenRead(blocks, name);
      (forall contents :: NeverOnTag(p, Built(blocks, contents, name, {}), syntax))
      <==> !Blind(blocks, name, "rules", {}) && !MissesFiles(p, RulesRead(blocks, name, syntax).items, worst)
  {
    hide Built, SightOf, Effective, Blind, MissesFiles, TagRunnable, TrustedItems, NeverOnTag, Writes;
    JobTagExact(p, blocks, name, syntax, adds);
    PlainSight(blocks, name, "rules", {});
    PlainSight(blocks, name, "when", {});
  }

  /** There "always" and "conditional" exclude a manual job exactly if no unresolved merge outranks the
      rules, and none outranks the `when` unless the rules never fall back on it. */
  lemma JobMainPlain(p: Pipeline, blocks: Blocks, name: string, syntax: Syntax, manual: string)
    requires PlainMerges(blocks) && Writes(syntax, manual, MANUAL)
    requires MainAnswer(blocks, name, syntax).Always? || MainAnswer(blocks, name, syntax).Conditional?
    requires var rules := RulesRead(blocks, name, syntax); rules.Items? ==> TrustedItems(p, rules.items, Main)
    ensures var rules := RulesRead(blocks, name, syntax);
      (forall contents :: NeverManual(p, Built(blocks, contents, name, {}), syntax))
      <==> && !Blind(blocks, name, "rules", {})
           && (Blind(blocks, name, "when", {}) ==> rules.Items? && !CanBeManual(p, rules.items, MANUAL))
  {
    hide Built, SightOf, Effective, Blind, CanBeManual, MainItems, TrustedItems, HasMergeKey, NeverManual, Writes;
    JobMainExact(p, blocks, name, syntax, manual);
    PlainSight(blocks, name, "rules", {});
    PlainSight(blocks, name, "when", {});
  }

  // ----- inputs on which the reader is wrong

  const IF_BRANCH := Item(Some(Dnf([[Compare(Branch, IsSet, Null)]])), None, false, false)

  /** Three section texts: a branch condition, an automatic job and a manual one. */
  function SmallSyntax(): Syntax {
    Syntax(map["branch" := [IF_BRANCH],
               "auto" := [Item(None, Some(ON_SUCCESS), false, false)],
               "manual" := [Item(None, Some(MANUAL), false, false)]],
           {"branch", "auto", "manual"})
  }

  lemma SmallSections()
    ensures SmallSyntax().Items("branch") == [IF_BRANCH]
    ensures Writes(SmallSyntax(), "auto", ON_SUCCESS) && Writes(SmallSyntax(), "manual", MANUAL)
  {
    assert "auto"[0] != "branch"[0] && "auto"[0] != "manual"[0] && "manual"[0] != "branch"[0];
  }

  lemma BranchNeverOnTag()
    ensures !TagRunnable([IF_BRANCH])
  {
    var ands := [Compare(Branch, IsSet, Null)];
    assert AtomVerdict(ands[0], Tag) == Some(false);
    assert AndVerdict(ands, Tag) == Some(false);
    assert CondVerdict(Dnf([ands]), Tag) == Some(false) by {
      assert [ands][0] == ands;
    }
    assert [IF_BRANCH][1..] == [];
  }

  /** The reader takes the rules `read` and no `when` for the job. */
  predicate ReadsRules(blocks: Blocks, read: string) {
    Effective(blocks, "job", "rules", {}) == Some(read) && Effective(blocks, "job", "when", {}) == None
  }

  lemma SmallAnswers(blocks: Blocks)
    ensures ReadsRules(blocks, "branch") ==> !TagAnswer(blocks, "job", SmallSyntax())
    ensures ReadsRules(blocks, "auto") ==> MainAnswer(blocks, "job", SmallSyntax()) == Always
  {
    hide Effective, HasMergeKey, TagRunnable;
    SmallSections();
    BranchNeverOnTag();
  }

  /** A job with an unresolved merge that extends a template with these rules. */
  function MergeOverTemplate(rules: string): Blocks {
    map["job" := Block(map[], [Unresolved("a")], Some([".t"])), ".t" := Block(map["rules" := rules], [], None)]
  }

  lemma MergeOverTemplateReads(rules: string)
    ensures ReadsRules(MergeOverTemplate(rules), rules)
    ensures SightOf(MergeOverTemplate(rules), "job", "rules", {}).Hidden?
  {
    var blocks := MergeOverTemplate(rules);
    assert "job"[0] != ".t"[0] && "rules"[0] != "when"[0];
    MergeOverTemplateKey(rules, "rules");
    MergeOverTemplateKey(rules, "when");
    assert MergeSight(blocks, blocks["job"].merges, "rules", {} + {"job"}).Hidden?;
  }

  lemma MergeOverTemplateKey(rules: string, key: string)
    ensures Effective(MergeOverTemplate(rules), "job", key, {}) == At(map["rules" := rules], key)
  {
    var blocks, seen := MergeOverTemplate(rules), {} + {"job"};
    assert "job"[0] != ".t"[0];
    OneTemplate(".t");
    assert Parents(blocks["job"]) == [Unresolved("a")] + [Anchor(".t")] && Parents(blocks[".t"]) == [];
    assert Effective(blocks, ".t", key, seen) == At(map["rules" := rules], key);
    assert [Anchor(".t")][1..] == [] && ([Unresolved("a")] + [Anchor(".t")])[1..] == [Anchor(".t")];
    assert FirstEffective(blocks, [Anchor(".t")], key, seen) == At(map["rules" := rules], key);
    assert FirstEffective(blocks, Parents(blocks["job"]), key, seen) == At(map["rules" := rules], key);
  }

  lemma OneTemplate(name: string)
    ensures Anchors([name]) == [Anchor(name)]
  {
    assert [name][..0] == [];
  }

  /** With an unresolved merge above a template whose rules never hold on a tag the reader says that
      the job cannot run; the merge may bring rules that add it. */
  lemma UnresolvedMergeHidesTagRun(p: Pipeline)
    ensures !TagAnswer(MergeOverTemplate("branch"), "job", SmallSyntax())
    ensures var blocks := MergeOverTemplate("branch");
      var job := Built(blocks, AllBring(blocks, "rules", "auto"), "job", {});
      At(job, "rules") == Some("auto") && JobFate(p, job, SmallSyntax(), [Met]) == Added(ON_SUCCESS)
  {
    hide Built, Effective, SightOf, TagAnswer, MainAnswer;
    var blocks := MergeOverTemplate("branch");
    MergeOverTemplateReads("branch");
    SmallAnswers(blocks);
    SmallSections();
    BuiltHides(blocks, "job", "rules", {}, "auto");
    WrittenFate(p, SmallSyntax(), "auto", ON_SUCCESS, Built(blocks, AllBring(blocks, "rules", "auto"), "job", {}));
  }

  /** Above a template that runs automatically it makes the reader say "always"; the merge may bring
      rules that make the job manual. */
  lemma UnresolvedMergeHidesManual(p: Pipeline)
    ensures MainAnswer(MergeOverTemplate("auto"), "job", SmallSyntax()) == Always
    ensures var blocks := MergeOverTemplate("auto");
      var job := Built(blocks, AllBring(blocks, "rules", "manual"), "job", {});
      At(job, "rules") == Some("manual") && JobFate(p, job, SmallSyntax(), [Met]) == Added(MANUAL)
  {
    hide Built, Effective, SightOf, TagAnswer, MainAnswer;
    var blocks := MergeOverTemplate("auto");
    MergeOverTemplateReads("auto");
    SmallAnswers(blocks);
    SmallSections();
    BuiltHides(blocks, "job", "rules", {}, "manual");
    WrittenFate(p, SmallSyntax(), "manual", MANUAL, Built(blocks, AllBring(blocks, "rules", "manual"), "job", {}));
  }

  /** A job that merges a block extending `.u` and itself extends `.t`. */
  function ReplacedExtends(u: string, t: string): Blocks {
    map["job" := Block(map[], [Anchor(".a")], Some([".t"])),
        ".a" := Block(map[], [], Some([".u"])),
        ".u" := Block(map["rules" := u], [], None),
        ".t" := Block(map["rules" := t], [], None)]
  }

  lemma ReplacedExtendsReads(u: string, t: string)
    ensures ReadsRules(ReplacedExtends(u, t), u)
    ensures SightOf(ReplacedExtends(u, t), "job", "rules", {}) == Found(t)
  {
    assert "rules"[0] != "when"[0];
    ReplacedExtendsKey(u, t, "rules");
    ReplacedExtendsKey(u, t, "when");
    ReplacedExtendsSight(u, t);
  }

  lemma DifferentNames()
    ensures ".a" != ".u" && ".a" != ".t" && ".a" != ".b" && ".u" != ".t" && ".u" != ".b"
    ensures "job" != ".a" && "job" != ".u" && "job" != ".t" && "job" != ".b"
  {
    assert ".a"[1] != ".u"[1] && ".a"[1] != ".t"[1] && ".a"[1] != ".b"[1] && ".u"[1] != ".t"[1] && ".u"[1] != ".b"[1];
    assert "job"[0] != ".a"[0] && "job"[0] != ".u"[0] && "job"[0] != ".t"[0] && "job"[0] != ".b"[0];
  }

  lemma ReplacedExtendsKey(u: string, t: string, key: string)
    requires key == "rules" || key == "when"
    ensures Effective(ReplacedExtends(u, t), "job", key, {}) == At(map["rules" := u], key)
  {
    var blocks, seen, inner := ReplacedExtends(u, t), {} + {"job"}, {} + {"job"} + {".a"};
    DifferentNames();
    OneTemplate(".u");
    OneTemplate(".t");
    assert Parents(blocks["job"]) == [Anchor(".a")] + [Anchor(".t")] && Parents(blocks[".a"]) == [Anchor(".u")];
    assert Parents(blocks[".u"]) == [] && Parents(blocks[".t"]) == [];
    assert Effective(blocks, ".u", key, inner) == At(map["rules" := u], key);
    assert Effective(blocks, ".t", key, seen) == At(map["rules" := t], key);
    assert [Anchor(".u")][1..] == [] && [Anchor(".t")][1..] == []
      && ([Anchor(".a")] + [Anchor(".t")])[1..] == [Anchor(".t")];
    assert FirstEffective(blocks, [Anchor(".u")], key, inner) == At(map["rules" := u], key);
    assert Effective(blocks, ".a", key, seen) == At(map["rules" := u], key);
    assert FirstEffective(blocks, [Anchor(".t")], key, seen) == At(map["rules" := t], key);
    assert "rules"[0] != "when"[0];
    assert FirstEffective(blocks, Parents(blocks["job"]), key, seen) == At(map["rules" := u], key);
  }

  lemma ReplacedExtendsSight(u: string, t: string)
    ensures SightOf(ReplacedExtends(u, t), "job", "rules", {}) == Found(t)
  {
    var blocks, seen := ReplacedExtends(u, t), {} + {"job"};
    DifferentNames();
    assert [Anchor(".a")][1..] == [] && [".t"][..0] == [];
    assert YamlSight(blocks, ".a", "rules", seen).Absent?;
    assert MergeSight(blocks, [Anchor(".a")], "rules", seen).Absent?;
    assert YamlSight(blocks, "job", "rules", {}).Absent?;
    assert SightOf(blocks, ".t", "rules", seen) == Found(t);
    assert TemplateSight(blocks, [".t"], "rules", seen) == Found(t);
    assert YamlExtends(blocks, "job", {}) == Some([".t"]);
  }

  /** The job's own `extends:` replaces that of the block it merges, but the reader follows both:
      it says that the job cannot run on a tag, and GitLab adds it to every one. */
  lemma ReplacedExtendsHidesTagRun(p: Pipeline, contents: Contents)
    ensures !TagAnswer(ReplacedExtends("branch", "auto"), "job", SmallSyntax())
    ensures var job := Built(ReplacedExtends("branch", "auto"), contents, "job", {});
      At(job, "rules") == Some("auto") && JobFate(p, job, SmallSyntax(), [Met]) == Added(ON_SUCCESS)
  {
    hide Built, Effective, SightOf, TagAnswer, MainAnswer;
    var blocks := ReplacedExtends("branch", "auto");
    ReplacedExtendsReads("branch", "auto");
    SmallAnswers(blocks);
    SmallSections();
    BuiltShows(blocks, contents, "job", "rules", {});
    WrittenFate(p, SmallSyntax(), "auto", ON_SUCCESS, Built(blocks, contents, "job", {}));
  }

  /** In the same way it says "always" for a job that is manual. */
  lemma ReplacedExtendsHidesManual(p: Pipeline, contents: Contents)
    ensures MainAnswer(ReplacedExtends("auto", "manual"), "job", SmallSyntax()) == Always
    ensures var job := Built(ReplacedExtends("auto", "manual"), contents, "job", {});
      At(job, "rules") == Some("manual") && JobFate(p, job, SmallSyntax(), [Met]) == Added(MANUAL)
  {
    hide Built, Effective, SightOf, TagAnswer, MainAnswer;
    var blocks := ReplacedExtends("auto", "manual");
    ReplacedExtendsReads("auto", "manual");
    SmallAnswers(blocks);
    SmallSections();
    BuiltShows(blocks, contents, "job", "rules", {});
    WrittenFate(p, SmallSyntax(), "manual", MANUAL, Built(blocks, contents, "job", {}));
  }

  /** A job that merges a block extending `.u`, and then one with rules of its own. */
  function MergeBesideMerge(u: string, b: string): Blocks {
    map["job" := Block(map[], [Anchor(".a"), Anchor(".b")], None),
        ".a" := Block(map[], [], Some([".u"])),
        ".b" := Block(map["rules" := b], [], None),
        ".u" := Block(map["rules" := u], [], None)]
  }

  /** There too the reader finds what the first block extends, and the job has what is merged. */
  lemma MergeBesideMergeReads(u: string, b: string)
    ensures Effective(MergeBesideMerge(u, b), "job", "rules", {}) == Some(u)
    ensures SightOf(MergeBesideMerge(u, b), "job", "rules", {}) == Found(b)
  {
    var blocks, seen, inner := MergeBesideMerge(u, b), {} + {"job"}, {} + {"job"} + {".a"};
    DifferentNames();
    OneTemplate(".u");
    assert Parents(blocks["job"]) == [Anchor(".a")] + [Anchor(".b")] && Parents(blocks[".a"]) == [Anchor(".u")];
    assert [Anchor(".u")][1..] == [] && [Anchor(".b")][1..] == []
      && ([Anchor(".a")] + [Anchor(".b")])[1..] == [Anchor(".b")];
    assert Effective(blocks, ".u", "rules", inner) == Some(u);
    assert FirstEffective(blocks, [Anchor(".u")], "rules", inner) == Some(u);
    assert Effective(blocks, ".a", "rules", seen) == Some(u);
    assert FirstEffective(blocks, Parents(blocks["job"]), "rules", seen) == Some(u);
    assert YamlSight(blocks, ".a", "rules", seen).Absent?;
    assert YamlSight(blocks, ".b", "rules", seen) == Found(b);
    assert MergeSight(blocks, [Anchor(".b")], "rules", seen) == Found(b);
    assert MergeSight(blocks, [Anchor(".a")] + [Anchor(".b")], "rules", seen) == Found(b);
    assert blocks["job"].merges == [Anchor(".a")] + [Anchor(".b")];
  }
}
