/** What the reader answers for a whole job of a CI file, told from the sections that it finds and
    the items in them. */
module CiJobAnswers {
  import opened Common
  import opened CiRules
  import opened CiAnswers
  import opened CiInheritance
  import opened CiJobs

  /** The items of the section that the reader finds under `rules:`, if it can split it. */
  ghost predicate FindsItems(blocks: Blocks, name: string, syntax: Syntax, items: seq<Item>) {
    match Effective(blocks, name, "rules", {})
    case None => false
    case Some(text) => text in syntax.splits && items == if text in syntax.sections then syntax.sections[text] else []
  }

  ghost predicate FindsRules(blocks: Blocks, name: string) {
    Effective(blocks, name, "rules", {}).Some?
  }

  /** `word` is the job's own `when:` as the reader finds it, empty if there is none. */
  ghost predicate FindsWhen(blocks: Blocks, name: string, word: string) {
    match Effective(blocks, name, "when", {})
    case None => |word| == 0
    case Some(text) => word == text
  }

  /** It answers that the job cannot run on a tag exactly if it finds items, and each that may match
      says `never` or comes after one that surely matches and says `never`. */
  lemma JobTagReadExact(blocks: Blocks, name: string, syntax: Syntax)
    ensures !TagAnswer(blocks, name, syntax) <==>
      exists items :: FindsItems(blocks, name, syntax, items) && forall i: nat |
        i < |items| && MayAdd(items[i]) :: exists j: nat :: j < i && SurelyNever(items[j])
  {
    hide Effective, MayAdd, SurelyNever, TagRunnable;
    var rules := RulesRead(blocks, name, syntax);
    if rules.Items? {
      TagReadExact(rules.items);
      assert FindsItems(blocks, name, syntax, rules.items);
    }
    forall items | FindsItems(blocks, name, syntax, items) ensures rules == Rules.Items(items) {}
  }

  /** How the job behaves on main, as the reader sees it: where it finds items, as these say; where it
      finds rules that it cannot split, unknown; and where it finds none, unknown if a merge is
      unresolved and otherwise as the job's `when:` says. */
  lemma JobMainReadExact(blocks: Blocks, name: string, syntax: Syntax, items: seq<Item>, jobWhen: string)
    requires FindsWhen(blocks, name, jobWhen)
    ensures var outcome := MainAnswer(blocks, name, syntax);
      if !FindsRules(blocks, name) then
        outcome ==
          if HasMergeKey(blocks, name, {}) then Unknown else if jobWhen == "manual" then ManualPossible else Always
      else if FindsItems(blocks, name, syntax, items) then
        && (outcome == ManualPossible <==> MeetsManual(items, jobWhen))
        && (outcome == Always <==> !MeetsManual(items, jobWhen) && MeetsAdder(items, jobWhen))
        && (outcome == Unknown <==> !MeetsManual(items, jobWhen) && MeetsUnknown(items))
      else (forall any :: !FindsItems(blocks, name, syntax, any)) ==> outcome == Unknown
  {
    hide Effective, HasMergeKey, MeetsManual, MeetsAdder, MeetsUnknown, MainItems;
    if FindsItems(blocks, name, syntax, items) {
      MainReadExact(items, jobWhen);
    } else if FindsRules(blocks, name) {
      var rules := RulesRead(blocks, name, syntax);
      if rules.Items? {
        assert FindsItems(blocks, name, syntax, rules.items);
      }
    }
  }
}
