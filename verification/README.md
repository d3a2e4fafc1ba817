# Verified models of the board's delivery scripts

The repository's delivery pipeline is guarded by a set of Python scripts: they refuse a release
whose main pipeline did not pass, an API change that breaks clients, a cost record that rewrites
history, a mutation score that no real run produced. This project models the decision logic of
those scripts in Dafny and proves what each of them is relied on for.

| file | component |
|---|---|
| `ApiSchema.dfy`, `ApiCompat.dfy`, `ApiContract.dfy`, `ApiExact.dfy`, `ApiPaths.dfy`, `ApiPathsExact.dfy` | the API compatibility diff: references and flattening of composed schemas, the recursive comparison, what its silence means for JSON values, what each finding is caused by, whole documents |
| `CiRules.dfy`, `CiAnswers.dfy`, `CiInheritance.dfy`, `CiJobs.dfy`, `CiJobAnswers.dfy` | the reader of GitLab `rules:` (tag jobs, main jobs), when it must give which answer, its lookup of inherited sections against the job that merges and `extends:` build, and whole jobs |
| `ReleaseGuard.dfy` | the verdict on a job list and the polling release guard |
| `CostText.dfy`, `CostRecord.dfy`, `CostGrammar.dfy`, `CostTotals.dfy`, `CostLedger.dfy`, `CostPlans.dfy`, `CostRounding.dfy` | the cost record: printer and strict parser, the language that the parser accepts, the figures of its total row, the history of records and the plan for the next one, prices and rounding |
| `MutationShards.dfy`, `MutationScore.dfy`, `MutationTargets.dfy` | the split of the mutation run over CI jobs, exporting, checking and merging its counts, and the verdict on the whole job |
| `YieldWatch.dfy`, `YieldRuns.dfy` | the yield watch's state, folded over nightly batches behind a watermark, and runs of it that file issues |
| `GateScan.dfy` | the search for a role gate behind a write handler |
| `CellEditor.dfy`, `CellExact.dfy`, `FastPathTable.dfy` | the tokenizer and editor of the fast-path table, and what each cell and removal is in terms of the text |
| `EmitClosure.dfy`, `Paths.dfy` | the call graph of broadcasts, and what runs after the commit; paths in graphs |
| `AliasResolver.dfy`, `InterfaceBases.dfy` | TypeScript string-union aliases and inherited interface fields |
| `Common.dfy` | options, results, sums, filters, names in alphabetical order |

Code that the scripts write as loops over mutable state is written here as methods and classes
(`Comparer`, `Watch`, `Resolver`, the polling loop, the fixpoint loops) that are proved equal to a
specification function or against a property; the theorems are then about that function. What such
a function answers is stated once more without it, from the inputs alone, in lemmas whose names end
in `Exact`: which findings there are, which verdict, which plan, which refusal.

## How the models read the code

- **JSON schemas.** A document is a map of named components and schema nodes with `$ref`, `allOf`
  and their own keywords. A `rank` on nodes certifies that there is no `allOf` cycle, on which the
  script does not terminate; it exists for every other document (`ApiContract.RankExists`,
  `ApiPaths.ReadyExactly`). A node's own `nullable` decides whether a composite admits null, and
  enums restrict the values other than null, which is how the generator of the documents wraps a
  reference. Parameters are keyed by place and name; findings are datatypes, not texts.
- **Three-valued reading of `rules:`.** Rule items are already split into conditions and `when`;
  a condition is an `or` of `and`s of comparisons, or something the reader cannot parse. A pipeline
  gives values to variables and answers to matches.
- **The job GitLab builds.** First a block's keys, `extends:` among them, are laid over those of its
  merges, as YAML does it; then the result is laid over the templates that it extends, each built
  in the same way, the last uppermost. What an unresolved merge brings is any set of keys, an
  `extends:` included.
- **Oracles.** The GitLab API and the clock of the polling guard are functions of the poll number
  with any behaviour; the only hypothesis is that each sleep advances the clock by the interval.
  `base_name` and the exemption lists are parameters of the verdict.
- **Cost records.** The record is text down to the character: thousands separators, cells,
  headings, windows, the footer and all other lines by their fixed openings with arbitrary
  printable tails. In the history, notes are their number and parsed content
  (`CostRecord.ParsedIsInOrder` states what parsing guarantees of them).
- **Amounts.** Exact amounts are real numbers. In the history a dollar figure is any real number
  and a cell of the running total is rounded to cents, halves to even, as the code quantizes it.
- **Merge requests.** Merge times are natural numbers, 0 for one that is not merged.

## Where the code and its descriptions differ

- The mismatch note under a cost table is described as allowing one cent of drift for each figure;
  the code allows one cent for each *cell* of the split. The note never fires on a consistent
  split exactly if there are at most 2P + 1 figures in P cells (`CostRounding.NoteExact`).
- A document compared with itself is not always free of findings: a request schema that requires a
  property it does not declare is reported (`ApiContract.SelfDiffCanReport`). The diff of a document
  with itself is silent exactly if every schema that its request bodies lead to declares what it
  requires (`ApiPaths.SelfSpecExact`).
- `_runs_on_tag` says that it errs towards "runs". An item with `exists:` and `when: never` makes it
  answer "cannot run" for a job that may run (`CiRules.ExistsBreaksTagSoundness`). The answer is
  right exactly unless such an item decided it, a missing file takes the tag past it and a later
  item adds the job (`CiRules.TagExact`, `TagExactWhenRead`).
- `_runs_on_tag` and `_main_outcome` say that a merge they cannot resolve counts as "yes" and as
  "unknown"; both read an inherited section past such a merge, which outranks it
  (`CiJobs.UnresolvedMergeHidesTagRun`, `UnresolvedMergeHidesManual`).
- `_effective` follows the `extends:` of an anchored block as soon as it comes to the block. In the
  built job the block's `extends:` is a key like any other: one of the job's own replaces it
  (`CiJobs.ReplacedExtendsHidesTagRun`, `ReplacedExtendsHidesManual`), and further merges come before
  it (`CiJobs.MergeBesideMergeReads`).
- What is read is the built job's section, whatever unresolved merges bring, exactly if it is the
  one that the file shows for the built job (`CiInheritance.SectionReadExact`). For given merges and
  `extends:` that is so for all keys exactly if the reader asks the blocks in the order in which the
  job is laid, repetitions apart (`CiInheritance.OrdersExact`), and a "cannot run" can be relied on
  exactly if the reader's order is a beginning of that one (`CiJobs.TagOrdersExact`). Where no
  anchored block has an `extends:` only unresolved merges matter (`CiInheritance.PlainReadExact`,
  `PlainOrdersAgree`). The answers for a whole job are right by the exact conditions of
  `CiJobs.JobTagExact`, `JobMainExact` and `JobAlwaysExact`.
- `_main_outcome` calls a job "always" without looking at a `changes:` or `exists:` item that says
  `when: never` (`CiRules.AlwaysCanBeWrong`); the word is right exactly if there is none before the
  deciding item (`CiRules.MainAlwaysExact`).
- The RBAC search shares one name between a method and a function of the module. With equal names
  it can miss a gate without reporting anything unresolved (`GateScan.SharedNameHidesGate`), and it
  is complete for every code with given names exactly if no two are equal
  (`GateScan.NegativesExact`).
- A running total reads as the sum of its records; what is printed is that sum rounded to cents, so
  amounts below half a cent get lost between the totals of successive records
  (`CostLedger.SmallCostsAreLost`). The printed total grows by the record's own figure exactly if
  that is in whole cents, and in an even number of them at a tie (`CostLedger.ShownTotalGrows`).
- `parse_ts_string_unions` is described as resolving one level of alias reuse; it resolves any
  depth (`AliasResolver.UnionExact`).
- With a threshold of 0 the yield watch keeps all the evidence of a streak, because Python's `[-0:]`
  is the whole list (`YieldWatch.EvidenceLength`).

## Model

| member | source | states |
|---|---|---|
| ApiSchema.Deref | scripts/check-api-compat.py:115-126 | following references ends after at most 20 steps at what the node refers to: the schema that at most twenty references lead to, the empty schema where one names no component, and a reference where twenty come to no end |
| ApiSchema.ResolveExact | scripts/check-api-compat.py:115-126 | a node is resolved to just what the document's components say it refers to |
| ApiSchema.FlattenNode | scripts/check-api-compat.py:128-149 | the merge loop over `allOf` parts computes the flattened view of the node |
| ApiSchema.MergeOrigins | scripts/check-api-compat.py:132-149 | type, enum and items of a flattened node come from one of its parts; its properties and required names are exactly those of the parts together |
| ApiSchema.FlattenExact | scripts/check-api-compat.py:128-149 | each key of a flattened node is its own or else that of the first part that has it, a property is that of the last part that declares it, required names are those of all; an unfinished chain of references claims nothing that is read |
| ApiSchema.DeclaresMeaning | scripts/check-api-compat.py:128-149 | a property is in the flattened view exactly if some composed part, at any depth, declares it |
| ApiSchema.NullMeaning | scripts/check-api-compat.py:152-156 | on a coherent node the flattened `nullable` marks only nodes that admit null, and marks every such node whose view is typed |
| ApiSchema.FlattenMeaning | scripts/check-api-compat.py:128-149 | flattening preserves meaning: a JSON value meets every composed part exactly if it meets the flattened view |
| ApiSchema.AdmitsMeaning | scripts/check-api-compat.py:128-164 | a value of the flattened view, null included, is one of the node; the converse holds for typed views, and for a promise unless the view is a bare read-only string |
| ApiSchema.PartsCompose | scripts/check-api-compat.py:128-149 | the flattened view is composed of the node's own keywords and its parts' views, and requires whatever one of them requires |
| ApiSchema.ViewOfParts | scripts/check-api-compat.py:128-149 | a value that meets all agreeing parts meets the composed view |
| ApiCompat.Shrinks | scripts/check-api-compat.py:262-268 | each pair that `seen` did not hold leaves fewer pairs to compare, so the recursion ends |
| ApiCompat.Comparer.Add | scripts/check-api-compat.py:175-176 | appends exactly the one finding |
| ApiCompat.Comparer.CompareSchema | scripts/check-api-compat.py:262-307 | the recursive comparison with its `seen` cut-off appends exactly the schema diff, in order |
| ApiCompat.Comparer.CompareViews | scripts/check-api-compat.py:270-307 | the same for two flattened views |
| ApiCompat.Comparer.CompareItems | scripts/check-api-compat.py:290-291 | the same for array items |
| ApiCompat.Comparer.CompareField | scripts/check-api-compat.py:295-304 | the same for one property |
| ApiCompat.Comparer.CompareProps | scripts/check-api-compat.py:292-304 | the same for all properties in alphabetical order |
| ApiContract.SilentSimulation | scripts/check-api-compat.py:262-307 | the pairs that a silent comparison visited form a simulation, up to the pairs it cut off |
| ApiContract.SimulationCarries | scripts/check-api-compat.py:262-307 | along a simulation every response value of the new schema, and every closed request value of the old one, is a value of the other side; by induction on the value |
| ApiContract.DiffSound | scripts/check-api-compat.py:262-307 | diff soundness: no findings means every value the new response sends was promised and every closed request the old schema accepted is accepted, recursive components included, on the fragment |
| ApiContract.NestedClosed | scripts/check-api-compat.py:262-307 | the schemas below a schema's part are below the schema |
| ApiContract.UniverseCertifies | scripts/check-api-compat.py:262-307 | every finite document with a rank bounds the walk from any schema, so comparing always ends |
| ApiContract.SelfDiffExact | scripts/check-api-compat.py:262-307 | a schema compared with itself is silent exactly if each request schema compared on the way declares what it requires; a response always is |
| ApiContract.SelfQuiet | scripts/check-api-compat.py:262-307 | under any set of pairs already under way, declared required names make the comparison of a schema with itself silent wherever it is placed |
| ApiContract.RankExists | scripts/check-api-compat.py:128-149 | a document has a rank exactly if no chain of `allOf` parts comes back to where it started |
| ApiContract.ComposedShrinks | scripts/check-api-compat.py:128-149 | without such a cycle a part leads to fewer nodes than the node it is a part of |
| ApiContract.SelfDiffCanReport | scripts/check-api-compat.py:301-307 | a request schema that requires an undeclared property is reported against itself |
| ApiContract.LostTypeIsMissed | scripts/check-api-compat.py:278-281 | the fragment is needed: a response that loses its `type` is not reported though it may now send numbers for text |
| ApiExact.TestsExact | scripts/check-api-compat.py:152-281 | the tests for null, for a changed type and for a baseline that promises nothing, from the keys of the schemas |
| ApiExact.ViewExact | scripts/check-api-compat.py:262-307 | the findings of a pair of views are those it is itself the cause of and those of the pairs below it |
| ApiExact.FindingsExact | scripts/check-api-compat.py:262-307 | a finding of any kind is made exactly if a pair of schemas that the comparison reaches, at the place that the finding names, is its cause: no noise, and nothing overlooked |
| ApiExact.SilentExact | scripts/check-api-compat.py:262-307 | two schemas compare without a finding exactly if no pair that is reached is a cause of one |
| ApiExact.ChangedComponentIsReported | scripts/check-api-compat.py:115-281 | an input: a component that turns from text into whole numbers is reported where a response refers to it |
| ApiPaths.RunPath | scripts/check-api-compat.py:178-191 | comparing one path method by method yields exactly the path diff |
| ApiPaths.Run | scripts/check-api-compat.py:178-191 | comparing whole documents yields exactly the document diff |
| ApiPaths.SilentParams | scripts/check-api-compat.py:205-221 | a silent comparison keeps every old parameter with its type and makes none required that was not |
| ApiPaths.SilentOp | scripts/check-api-compat.py:193-260 | a silent operation serves every client of the old one: parameters, body, statuses, response values |
| ApiPaths.SilentSpec | scripts/check-api-compat.py:178-191 | a document diff is silent exactly if every method of every baseline path is |
| ApiPaths.SilentSpecServes | scripts/check-api-compat.py:178-260 | a silent document diff keeps every baseline operation, and each serves its clients |
| ApiPaths.SelfOp | scripts/check-api-compat.py:193-260 | an operation compared with itself is silent exactly if the schemas of its request body declare what they require |
| ApiPaths.SelfSpecExact | scripts/check-api-compat.py:178-307 | a document compared with itself is silent exactly if every schema that its request bodies lead to declares what it requires |
| ApiPaths.ReadyExactly | scripts/check-api-compat.py:128-149 | two documents can be compared, and the comparison ends, exactly if neither has an `allOf` cycle |
| ApiPaths.StripExact | scripts/check-api-compat.py:466-483 | dropping the experimental paths from both documents yields exactly the findings of the full diff on the other paths, in order |
| ApiPathsExact.OpExact | scripts/check-api-compat.py:193-260 | comparing two operations reports a problem of any kind exactly if it has its cause in their parameters, bodies or responses |
| ApiPathsExact.SpecExact | scripts/check-api-compat.py:178-191 | comparing two documents reports exactly what has its cause in an operation of the baseline under one of the eight HTTP methods |
| CiRules.FaithfulIsRight | scripts/wait-for-main-pipeline.py:567-600 | the answer for a faithful comparison is its value in every pipeline of the kind |
| CiRules.Refutation | scripts/wait-for-main-pipeline.py:567-600 | for every other comparison there is a pipeline in which the answer is wrong |
| CiRules.AtomExact | scripts/wait-for-main-pipeline.py:567-600 | `_atom` is right in every pipeline of the kind exactly for the comparisons whose shape it does not guess at |
| CiRules.AndVerdictRight | scripts/wait-for-main-pipeline.py:603-621 | a definite answer for an `and` of comparisons is its value |
| CiRules.CondVerdictRight | scripts/wait-for-main-pipeline.py:603-621 | a definite answer of `_cond` is the value of the whole expression in every trusted pipeline |
| CiRules.ItemVerdictRight | scripts/wait-for-main-pipeline.py:624-656 | a definite answer for a rule item says whether GitLab matches it, given its file conditions |
| CiRules.RunsOnTag | scripts/wait-for-main-pipeline.py:631-656 | the early-return loop computes whether a job may run on a tag; unreadable or missing rules count as running |
| CiRules.TagExact | scripts/wait-for-main-pipeline.py:631-656 | tag soundness, exactly: "cannot run" is right whatever files exist unless an `exists:` item decided it, the pipeline gets that far and what follows can add the job |
| CiRules.TagExactWhenRead | scripts/wait-for-main-pipeline.py:631-656 | the same from the reader's own answers, without a pipeline, where it can tell every condition |
| CiRules.TagSound | scripts/wait-for-main-pipeline.py:631-656 | if the reader says the job cannot run, and no `exists:` item decided that, first-match rules add it to no tag pipeline |
| CiRules.ExistsBreaksTagSoundness | scripts/wait-for-main-pipeline.py:631-656 | an input: an `exists:` item that says `never` lets a later item add the job |
| CiRules.MainOutcome | scripts/wait-for-main-pipeline.py:659-690 | the early-return loop computes the outcome class of a main pipeline job from its rules, its `when` and whether a merge is unresolved |
| CiRules.MainNeverManual | scripts/wait-for-main-pipeline.py:659-690 | "always" and "conditional" mean that no push or web pipeline can make the job manual, whatever changed |
| CiRules.NeverManualExact | scripts/wait-for-main-pipeline.py:659-690 | no file changes make the job manual exactly if no item that can be reached does, which is read off the items |
| CiRules.ReadsManualRight | scripts/wait-for-main-pipeline.py:659-690 | where the reader can tell every condition it can tell that too |
| CiRules.MainAlwaysExact | scripts/wait-for-main-pipeline.py:659-690 | "always" means added whatever changed exactly if no skipped file-conditional item says `never` |
| CiRules.AddedExact | scripts/wait-for-main-pipeline.py:659-690 | the job is added whatever changed exactly if an item adds it without asking for files and none before says `never` |
| CiRules.AlwaysCanBeWrong | scripts/wait-for-main-pipeline.py:682-689 | an input: "always" for a job that a push with changed files does not add |
| CiRules.FaithfulItemsTrusted | scripts/wait-for-main-pipeline.py:567-628 | items of faithful comparisons are trusted in every pipeline of the kind |
| CiAnswers.AnswerExact | scripts/wait-for-main-pipeline.py:567-600 | by the shape of a comparison: it is answered with what all pipelines of the kind agree on, unless the reader guesses at it or is blind to it, and the shapes of both are listed; no other comparison is answered |
| CiAnswers.CondExact | scripts/wait-for-main-pipeline.py:603-621 | an expression is answered exactly if it comes out the same however the comparisons without an answer are filled in, and with that |
| CiAnswers.ItemExact | scripts/wait-for-main-pipeline.py:624-656 | the same for a rule item, which always matches if it has no condition |
| CiAnswers.FirstMatchExact | scripts/wait-for-main-pipeline.py:631-690 | the reference: the job is added as the first matching item, else the job, else `on_success` says, and not if that is `never` |
| CiAnswers.TagReadExact | scripts/wait-for-main-pipeline.py:631-656 | a job can run on a tag exactly if some item that does not say `never` may match and none before it surely matches and says `never` |
| CiAnswers.MainReadExact | scripts/wait-for-main-pipeline.py:659-690 | when the outcome is `manual-possible`, `always` and `unknown`, from the items that the reader comes to |
| CiAnswers.TagPlain | scripts/wait-for-main-pipeline.py:631-656 | with comparisons that all pipelines agree on, outside the shapes it guesses at or is blind to, it can run exactly if first-match rules add it to a tag with all files there |
| CiAnswers.MainPlain | scripts/wait-for-main-pipeline.py:659-690 | with such comparisons the outcome is `manual-possible` exactly if some files make the job manual, otherwise `always` exactly if it is added when no file condition is met, and never `unknown` |
| CiAnswers.DefaultBranchJob | scripts/wait-for-main-pipeline.py:593-594 | an input: a job that asks for the default branch is `always` and runs on no tag |
| CiInheritance.Lookup | scripts/wait-for-main-pipeline.py:526-537 | the path-limited recursion over parents terminates and finds the effective section, passing over unresolved merges |
| CiInheritance.BuiltShows | scripts/wait-for-main-pipeline.py:480-500 | what the file shows of a key is what the built job has, whatever the unresolved merges bring |
| CiInheritance.BuiltHides | scripts/wait-for-main-pipeline.py:480-500 | what the file hides behind an unresolved merge can be any text |
| CiInheritance.SectionReadExact | scripts/wait-for-main-pipeline.py:480-537 | the section read is the built job's for every content of the unresolved merges exactly if it is the one that the file shows for the built job |
| CiInheritance.OrdersExact | scripts/wait-for-main-pipeline.py:480-537 | for given merges and `extends:` the reader finds the built job's section, whatever keys the blocks have and unresolved merges bring, exactly if it asks in the order in which the job is laid, repetitions apart |
| CiInheritance.AgreeingOrdersRead | scripts/wait-for-main-pipeline.py:480-537 | where the orders agree every section of the file is read rightly |
| CiInheritance.PlainReadExact | scripts/wait-for-main-pipeline.py:480-537 | where no anchored block has an `extends:`, a section is read rightly exactly if no unresolved merge outranks the place where it was found |
| CiInheritance.PlainOrdersAgree | scripts/wait-for-main-pipeline.py:480-537 | where none has, and every merge is resolved, the orders agree |
| CiInheritance.MergeKeyExact | scripts/wait-for-main-pipeline.py:540-545 | a section that was not found was looked up past an unresolved merge exactly if the recursion of `_has_merge_key` finds one |
| CiJobs.RunsOnTag | scripts/wait-for-main-pipeline.py:631-656 | the answer for a job of the file, from the section looked up |
| CiJobs.MainOutcome | scripts/wait-for-main-pipeline.py:659-690 | the outcome class of a job of the file, from the sections looked up and `_has_merge_key` |
| CiJobAnswers.JobTagReadExact | scripts/wait-for-main-pipeline.py:631-656 | a job is said not to run on a tag exactly if items are found for it and each that may match says `never` or comes after one that surely matches and says `never` |
| CiJobAnswers.JobMainReadExact | scripts/wait-for-main-pipeline.py:659-690 | the outcome of a job on main: as the items found say, unknown where rules cannot be split, and without rules unknown past a merge and otherwise as the job's `when:` says |
| CiJobs.JobTagExact | scripts/wait-for-main-pipeline.py:480-656 | a job's "cannot run" is right whatever the unresolved merges bring and whatever files exist exactly if, where the built job has the rules that were read, no missing file takes a tag past the decision, and elsewhere the built job's rules are in sight and cannot add it |
| CiJobs.JobMainExact | scripts/wait-for-main-pipeline.py:480-690 | "always" and "conditional" exclude a manual job whatever the unresolved merges bring exactly if the built job's rules are in sight and no item of them can make it manual, also by a hidden `when`; so it is where rules and `when` are the built job's |
| CiJobs.JobAlwaysExact | scripts/wait-for-main-pipeline.py:480-690 | "always" means added whatever changed and whatever the unresolved merges bring exactly if the built job's rules are in sight and always add it; where they are the ones read, exactly if no skipped file-conditional item says `never` |
| CiJobs.TagShown | scripts/wait-for-main-pipeline.py:480-656 | the file shows exactly whether some content of the unresolved merges and some files let a tag add the built job |
| CiJobs.TagOrdersExact | scripts/wait-for-main-pipeline.py:480-656 | for given merges and `extends:` a "cannot run" not settled by `exists:` is right, whatever keys the blocks have and unresolved merges bring, exactly if the reader's order is a beginning of the build's |
| CiJobs.JobTagPlain | scripts/wait-for-main-pipeline.py:480-656 | where no anchored block has an `extends:`, "cannot run" is right exactly if no unresolved merge outranks the rules and no missing file takes a tag past the decision |
| CiJobs.JobMainPlain | scripts/wait-for-main-pipeline.py:480-690 | there "always" and "conditional" exclude a manual job exactly if no unresolved merge outranks the rules, nor the `when` where an item falls back on it |
| CiJobs.ReplacedExtendsHidesTagRun | scripts/wait-for-main-pipeline.py:480-537 | an input: a job whose own `extends:` replaces that of the block it merges; "cannot run" for a job that every tag pipeline adds |
| CiJobs.ReplacedExtendsHidesManual | scripts/wait-for-main-pipeline.py:480-537 | an input: the same with "always" for a manual job |
| CiJobs.MergeBesideMergeReads | scripts/wait-for-main-pipeline.py:480-537 | an input: of two merges the reader finds what the first block extends, the built job has what the second brings |
| CiJobs.UnresolvedMergeHidesTagRun | scripts/wait-for-main-pipeline.py:631-647 | an input: an unresolved merge above a template, "cannot run", and contents of the merge that add the job on a tag |
| CiJobs.UnresolvedMergeHidesManual | scripts/wait-for-main-pipeline.py:659-668 | an input: the same with "always" and contents that make the job manual |
| JobVerdict.CollectLatest | scripts/wait-for-main-pipeline.py:329-333 | the dictionary loop keeps for each name the attempt with the highest id |
| JobVerdict.CollectMissing | scripts/wait-for-main-pipeline.py:339-341 | one line for each always-required base name that is absent |
| JobVerdict.CollectLines | scripts/wait-for-main-pipeline.py:342-359 | every job's line goes to the list of its class |
| JobVerdict.Evaluate | scripts/wait-for-main-pipeline.py:322-364 | the verdict with its three lists is the specified report |
| JobVerdict.LatestExact | scripts/wait-for-main-pipeline.py:329-333 | what is kept for a name is its attempt with the highest id, the first listed of several, and no name is lost |
| JobVerdict.NewestIsLatest | scripts/wait-for-main-pipeline.py:329-333 | a name has one newest attempt, and it is the one kept |
| JobVerdict.VerdictExact | scripts/wait-for-main-pipeline.py:322-364 | by job status: refused exactly if there are jobs and a required name is missing or a newest, not exempt attempt was canceled, skipped, is manual, has an unknown status, or failed and is not tolerated; waited for exactly if there are no jobs, or it is not refused and a newest, not exempt attempt is not finished; passed otherwise |
| JobVerdict.LinesExact | scripts/wait-for-main-pipeline.py:322-364 | which lines are reported as problems, waiting and notes, by job status |
| JobVerdict.LinesInOrder | scripts/wait-for-main-pipeline.py:336-359 | each list names a job once, in alphabetical order, with what is missing before the problems of jobs |
| NameOrder.SortedExact | scripts/wait-for-main-pipeline.py:342-343 | the order in which names are gone through, here and in the API comparison: each name once, each before the later ones |
| NameOrder.LeqExact | scripts/wait-for-main-pipeline.py:342-343 | a name is before another exactly if it is its beginning, or has the smaller character where they first differ |
| JobVerdict.PassExact | scripts/wait-for-main-pipeline.py:322-364 | it passes exactly if there are jobs, every required base name is present and the newest attempt of each is successful, exempt or a tolerated failure |
| JobVerdict.ClassMeaning | scripts/wait-for-main-pipeline.py:342-359 | a line about a job is in the list of its class exactly if the job is a newest attempt |
| JobVerdict.PresentMeaning | scripts/wait-for-main-pipeline.py:334-341 | a base name counts as present exactly if some listed job has it |
| JobVerdict.OrderIrrelevant | scripts/wait-for-main-pipeline.py:322-364 | the whole report is the same for every order of the job list |
| ReleaseGuard.LatestMain | scripts/wait-for-main-pipeline.py:290-299 | the newest push or web pipeline at the commit, none exactly if there is none |
| ReleaseGuard.FetchJobs | scripts/wait-for-main-pipeline.py:301-315 | the paging loop yields the specified reply |
| ReleaseGuard.PagingExact | scripts/wait-for-main-pipeline.py:301-315 | paging yields the complete list or refuses one of 2000 jobs or more, never a part |
| ReleaseGuard.PagingFaults | scripts/wait-for-main-pipeline.py:301-315 | whatever the server answers: the first page that cannot be read is the reply if only full pages came before it, and twenty full pages are a failure |
| ReleaseGuard.Poll | scripts/wait-for-main-pipeline.py:384-415 | one poll's requests and their faults, as specified |
| ReleaseGuard.WaitForMain | scripts/wait-for-main-pipeline.py:367-447 | the loop stops at the first poll that decides, with that poll's exit code, within the timeout in whole polls plus one, for any server; a 0 rests on the pipeline seen |
| ReleaseGuard.PollExact | scripts/wait-for-main-pipeline.py:384-415 | a poll cannot be read, finds no main pipeline or judges one, from the server's answers |
| ReleaseGuard.StopsExact | scripts/wait-for-main-pipeline.py:384-447 | the guard stops with 0 exactly if the poll decides that the pipeline passes, and with 1 exactly if it is refused, a failure is definitive or one too many in a row, no pipeline has shown up in time, or the time is up |
| ReleaseGuard.PassIsEarned | scripts/wait-for-main-pipeline.py:367-447 | an exit of 0 rests on answers in that very poll: the listing was read, it has a newest main pipeline, its whole job list was read, every required job is in it and all newest attempts are acceptable |
| ReleaseGuard.ErrorsStayBelowLimit | scripts/wait-for-main-pipeline.py:403-413 | while it polls it has never had `max_errors` failures in a row nor a definitive one |
| CostText.NumberRoundTrip | scripts/cost-table.py:396-402 | a number survives printing and bounded parsing exactly if it has few enough digits |
| CostText.LastGroup | scripts/cost-table.py:396-402 | a number with thousands separators is read as its head and its last three digits |
| CostText.GroupedRoundTrip | scripts/cost-table.py:204-204 | a number with thousands separators survives exactly if it has few enough groups |
| CostText.CentsRoundTrip | scripts/cost-table.py:205-205 | an amount survives exactly if its dollars have at most 18 digits |
| CostText.SplitJoinedLines | scripts/cost-table.py:411-411 | splitting joined lines gives the lines |
| CostText.SplitJoinedCells | scripts/cost-table.py:429-429 | splitting joined cells gives the cells |
| CostRecord.CellRoundTrip | scripts/cost-table.py:434-446 | each printed cell, n/a included, is read back as its figure exactly if it fits the parser's bounds |
| CostRecord.CellsRoundTrip | scripts/cost-table.py:429-446 | the same for a row of cells in their columns |
| CostRecord.TotalRowRoundTrip | scripts/cost-table.py:301-315 | the total row is recognised and split into its cells again |
| CostRecord.HeaderRoundTrip | scripts/cost-table.py:324-326 | the header row is read back as its model families |
| CostRecord.WindowRoundTrip | scripts/cost-table.py:341-347 | the window line is read back as its times |
| CostRecord.HeadingRoundTrip | scripts/cost-table.py:321-321 | the heading is read back as its record number exactly if that has at most four digits |
| CostRecord.ProseInert | scripts/cost-table.py:324-366 | no other line of a note is taken for a header, a total row or a window |
| CostRecord.CollectLines | scripts/cost-table.py:421-425 | a pattern that passes over the other lines finds just what the five fixed lines hold |
| CostRecord.TableRoundTrip | scripts/cost-table.py:421-455 | the table and window are read back exactly if every cell fits and the window is valid and in order |
| CostRecord.RecordRoundTrip | scripts/cost-table.py:254-366 | printer and strict parser undo each other: a rendered note is read back as its number, window, families and figures, or not at all, by an exact condition on its size and figures |
| CostRecord.ParsedIsInOrder | scripts/cost-table.py:405-455 | whatever is read back has its heading's number, 1 to 9999, and a follow-up has a window in order |
| CostGrammar.HeadingExact | scripts/cost-table.py:198-198 | a first line has a record number exactly if it is the heading, an issue reference of up to nine digits or none, and a number of up to four or none |
| CostGrammar.HeaderExact | scripts/cost-table.py:199-201 | a header row is read as its two or three pairs of column headings, and no other line is |
| CostGrammar.TotalExact | scripts/cost-table.py:202-202 | a total row is read as the text between its label and its end, of up to 4000 characters |
| CostGrammar.CellExact | scripts/cost-table.py:203-206 | a cell is read as the figure that it shows between its stars: a reason, up to six comma-separated groups of digits, or an amount, each in its kind of column |
| CostGrammar.RowExact | scripts/cost-table.py:429-446 | a row is read as figures exactly if it is cells that show them with bars between |
| CostGrammar.WindowExact | scripts/cost-table.py:207-208 | a window line is read as the times, or the reason for none, that it states up to the first stop |
| CostGrammar.RealTimeExact | scripts/cost-table.py:245-250 | a time is accepted exactly if the calendar has it, leap years included |
| CostGrammar.LinesExact | scripts/cost-table.py:411-411 | the lines are the text split at its line feeds, without the carriage returns at their ends |
| CostGrammar.ParseExact | scripts/cost-table.py:405-455 | the language of the strict parser: a note of any text is read as a record exactly if it has at most 32768 characters and its lines say that record: heading, one header, one total row, one window line, footer, all of ASCII below the heading, calendar times in order |
| CostGrammar.PrintExact | scripts/cost-table.py:318-366 | which line of a rendered note is what: heading, header of the families, total row, window line, footer, and the other lines of the layout in between |
| CostTotals.CellsShowFigures | scripts/cost-table.py:301-315 | the cells of the total row show exactly the record's own totals, n/a where there is none |
| CostTotals.OwnTotalsReadBack | scripts/cost-table.py:254-455 | from the per-model split to the parser and back: every total the script computed is read back as computed, if the note is readable at all |
| CostTotals.FamiliesAddUp | scripts/cost-table.py:271-308 | conservation: the family totals shown make up exactly the tokens of both sides |
| CostTotals.NoEstimate | scripts/cost-table.py:306-311 | a family has no estimate exactly if a side has no split or used the family without a price |
| CostTotals.NoAgentsTotals | scripts/cost-table.py:262-269 | in a window without subagents the totals are the orchestrator's own, not n/a |
| CostTotals.TokensExact | scripts/cost-table.py:301-308 | a family's tokens are those of both sides, if both are split |
| CostTotals.CentsExact | scripts/cost-table.py:306-311 | its estimate is that of both sides, if both are split and neither used it without a price |
| CostTotals.OtherExact | scripts/cost-table.py:271-300 | the third family is shown exactly if an earlier record or some side of the split has it |
| CostTotals.NoAgentsExact | scripts/cost-table.py:262-269 | a missing subagent side counts as one of nothing exactly if no subagent ran, and nothing else changes |
| CostTotals.FamilyCellsExact | scripts/cost-table.py:301-315 | a family's cells show its totals, or whether a side has no split or a price is missing |
| CostLedger.ScanPairs | scripts/cost-table.py:547-557 | the loop over neighbouring records finds the first thing wrong, or all gaps |
| CostLedger.ComputePrior | scripts/cost-table.py:534-568 | the prior of a follow-up: its records, a reason or the gaps |
| CostLedger.PlanFollowup | scripts/cost-table.py:519-569 | target, number and prior of a follow-up, or a refusal |
| CostLedger.RewritesOnlyLatest | scripts/cost-table.py:521-534 | only the own note that alone has the highest number can be rewritten, for its own window and never record 1 |
| CostLedger.NewNumberIsHighest | scripts/cost-table.py:521-534 | a newly posted follow-up has a number above all existing ones |
| CostLedger.UpsertRewritesOnlyRecord | scripts/cost-table.py:580-591 | record 1 is rewritten only while it is the only record and was read back |
| CostLedger.StepKeeps | scripts/cost-table.py:519-591 | every step, hand-written notes included, keeps the notes well formed and leaves superseded records as they are |
| CostLedger.SupersededForever | scripts/cost-table.py:519-591 | over every run a superseded record is never edited again |
| CostLedger.RunOk | scripts/cost-table.py:519-591 | every state of every run is well formed |
| CostLedger.FollowupIdempotent | scripts/cost-table.py:519-577 | repeating a follow-up that went through targets the very note it wrote, with the same number and prior |
| CostLedger.GapsTile | scripts/cost-table.py:549-568 | an instant between the records is in a stated gap exactly if no record covers it |
| CostLedger.ChainOrder | scripts/cost-table.py:549-557 | records without an overlap are ordered throughout |
| CostLedger.PriorTiles | scripts/cost-table.py:536-568 | when a total is stated, the earlier records are exactly 1 to K-1, in order without overlap, and the stated gaps are exactly the uncovered instants up to this window |
| CostLedger.PriorGaps | scripts/cost-table.py:549-568 | the gaps are those between the records and the one before this window |
| CostLedger.PriorOrdered | scripts/cost-table.py:536-568 | the records of a stated total are numbered and ordered |
| CostLedger.InOrderNumbers | scripts/cost-table.py:536-543 | readable notes numbered 1 to K-1 in any order give the records in order |
| CostLedger.EarlierEnd | scripts/cost-table.py:536-568 | every record of a stated total ends by the start of the new window |
| CostLedger.RunningCell | scripts/cost-table.py:369-386 | a cell of the running total is the exact sum of the record's own figure and the earlier ones, rounded to cents if it is an amount, or n/a |
| CostLedger.RunningSumFirst | scripts/cost-table.py:369-386 | the own figure only shifts the sum, and n/a stays n/a |
| CostLedger.RunningTotalGrows | scripts/cost-table.py:369-386 | conservation: each exact running total, of a new column too, is the previous one plus this record's own figure, n/a exactly if one of them is |
| CostLedger.ShownNear | scripts/cost-table.py:383-386 | a printed total is within half a cent of the exact one, and equal to it for tokens and whole cents |
| CostLedger.HalfEvenGrows | scripts/cost-table.py:383-386 | rounding commutes with adding a figure exactly if that is whole, and even at a tie |
| CostLedger.ShownTotalGrows | scripts/cost-table.py:369-386 | the printed running total grows by exactly the record's own figure if and only if that is in whole cents, and in an even number of them where the sum before is a tie |
| CostLedger.WholeCentsShown | scripts/cost-table.py:369-386 | where all figures are in whole cents every printed total is the exact one |
| CostLedger.SmallCostsAreLost | scripts/cost-table.py:369-386 | an input: three records of 0.004 USD, one window after another; the running totals printed over the prior of the second and of the third are 0.01 and 0.01 |
| CostLedger.PriorSnoc | scripts/cost-table.py:536-568 | posting a record extends the next prior by it and by the gap behind it |
| CostLedger.FollowupsChain | scripts/cost-table.py:519-577 | after a posted follow-up a later window is planned as a new note with the next number that states a total too and adds up one record and one gap more |
| CostPlans.PlanExact | scripts/cost-table.py:519-569 | the plan from the notes: rewrite the note that alone is on top if it is for this window, refuse if another note is, and otherwise post with the next number; its total is that of all other notes |
| CostPlans.NextExact | scripts/cost-table.py:529-532 | the next number is the least from 2 on above all numbers and above how many notes there are |
| CostPlans.UpsertExact | scripts/cost-table.py:580-591 | record 1 is posted if there is none, rewritten if it is the only record and was read back, and refused otherwise |
| CostPlans.NumbersExact | scripts/cost-table.py:536-543 | the numbers are taken for 1 to K-1 exactly if each of those occurs once and no other |
| CostPlans.PriorExact | scripts/cost-table.py:534-568 | why no total is stated, and when it is: a note was not read, the numbers are not 1 to K-1, the first pair of neighbours with something wrong, or the last record and the window |
| CostPlans.HalfEvenExact | scripts/cost-table.py:383-386 | cents are rounded to the nearest, and to the even of two |
| CostPlans.ShownExact | scripts/cost-table.py:383-386 | a cell shows tokens as they are and an amount in rounded cents |
| CostPlans.RunningExact | scripts/cost-table.py:369-386 | one more record adds its figure of a column, nothing if it does not show the column, and makes the sum unavailable if it has no figure there |
| CostRounding.PriceRows | scripts/est-cost.py:136-163 | the total is exactly the sum of the models' costs, each the cost of its responses; it stops exactly at the first response without a price |
| CostRounding.TokenPrices | scripts/est-cost.py:136-150 | nothing is due for no tokens, and one more token of a kind adds the rate of that kind, by the long-prompt rates exactly above their limit |
| CostRounding.PriceExact | scripts/est-cost.py:136-145 | a response has no price exactly if a modifier changes it or its model is not in the table |
| CostRounding.ModelCostNonNegative | scripts/est-cost.py:94-99 | with a checked price table no model's cost is negative |
| CostRounding.SplitUsd | scripts/cost-table.py:217-235 | adding up the per-model lines by side and family |
| CostRounding.GotAdds | scripts/cost-table.py:229-232 | adding a line to its cell adds it to the sum of all cells |
| CostRounding.GroupedLines | scripts/cost-table.py:331-335 | grouping keeps the sum of the printed figures, and its cells are those named |
| CostRounding.SumNear | scripts/est-cost.py:166-167 | rounding M figures to cents moves their sum by at most M half-cents |
| CostRounding.NoteExact | scripts/cost-table.py:331-338 | the mismatch note stays silent on every consistent split exactly if a side is missing or there are at most 2P + 1 figures in P cells |
| CostRounding.CentsExact | scripts/est-cost.py:166-167 | an amount in whole cents is the nearest, and the higher of two |
| CostRounding.FiresExact | scripts/cost-table.py:333-340 | the note is printed exactly if both sides have figures, or none ran, and the figures miss the total by more cents than there are cells |
| MutationPlan.Slot | backend/mutmut_config.py:152-168 | job i gets the i-th (target, shard) pair of the table; wrong totals and indexes are refused |
| MutationPlan.SlotsMembers | backend/mutmut_config.py:139-168 | the pairs are exactly the targets with their shard numbers |
| MutationPlan.SlotsDistinct | backend/mutmut_config.py:152-168 | no pair is given to two jobs |
| MutationPlan.SlotBijection | backend/mutmut_config.py:139-168 | jobs 1 to total and (target, shard) pairs correspond one to one |
| MutationPlan.Assign | backend/mutmut_config.py:202-206 | the dealing loop computes the assignment |
| MutationPlan.CountIs | backend/mutmut_config.py:202-206 | round-robin gives a shard the quotient, and one more to the first few |
| MutationPlan.DealtShare | backend/mutmut_config.py:202-206 | a shard's share has the size of its part of the positions, and every mutant dealt has a shard |
| MutationPlan.FairDeal | backend/mutmut_config.py:202-206 | every mutant in range, and no other, is dealt to one shard; no share exceeds another by more than one |
| MutationPlan.ExactlyOneShardRuns | backend/mutmut_config.py:249-256 | each mutant on a line from the first to the last of the target's range runs in exactly one shard and one on another line in none; a hand run of the target runs those in range |
| MutationPlan.HandRunByLine | backend/mutmut_config.py:249-256 | without a target, shard k of n runs the mutants of the lines k, k + n, k + 2n and so on, and no other shard does |
| MutationScore.ScanFile | scripts/check_mutation_score.py:289-303 | the loop over cache rows tallies them, or refuses a verdict on a foreign row |
| MutationScore.ExportCache | scripts/check_mutation_score.py:273-315 | the export of a cache of several files, with its three refusals |
| MutationScore.ScanCounts | scripts/check_mutation_score.py:289-303 | a clean cache tallies each mutant once, under its status |
| MutationScore.ExportCountsEveryMutant | scripts/check_mutation_score.py:276-315 | the export of a clean cache of one file, which is what a target's process leaves: its total is the number of mutants generated in range; one without a row counts as untested; excluded is the difference the pragmas make |
| MutationScore.ScanRefuses | scripts/check_mutation_score.py:290-301 | a cache is refused exactly if a row in range that is no generated mutant was run |
| MutationScore.ExportRefuses | scripts/check_mutation_score.py:273-312 | an export is refused exactly if a file's pragmas or rows cannot be trusted or no mutant is in range |
| MutationScore.RefusalExact | scripts/check_mutation_score.py:276-300 | which refusal a file gets: pragmas in the exported lines that exclude nothing there, or else a row that was run and is no generated mutant |
| MutationScore.ConsistencyExact | scripts/check_mutation_score.py:461-478 | shards pass exactly if there is nothing to compare, or they agree on total and excluded and the mutants they ran make up the total |
| MutationScore.ProblemExact | scripts/check_mutation_score.py:449-478 | what is said to be wrong with shards is wrong with them: no total, totals or excluded counts that differ, or mutants not covered |
| MutationScore.MergedHighest | scripts/check_mutation_score.py:481-495 | excluded and phantom counts of a merge are the highest that its shards state |
| MutationScore.CacheAddsUp | scripts/check_mutation_score.py:273-315 | a cache of more files counts what its parts count, and is refused exactly if one of them is |
| MutationScore.ScoreMeaning | scripts/check_mutation_score.py:325-341 | a score is a share, 1 exactly if nothing scoreable survived; the raw score is the score with the excluded as survivors |
| MutationScore.ScanPhantoms | scripts/check_mutation_score.py:293-301 | the phantoms are the rows in range that are no generated mutant |
| MutationScore.Merge | scripts/check_mutation_score.py:481-497 | the merge sums the verdicts and takes total, excluded and phantom once |
| MutationScore.CacheSets | scripts/check_mutation_score.py:290-304 | the rows of a shard's cache are its own mutants by verdict and the others as skipped |
| MutationScore.ExportOfRun | scripts/check_mutation_score.py:276-315 | each count of such an export is the number of mutants run with that verdict |
| MutationScore.SumOfParts | scripts/check_mutation_score.py:485-488 | counts of the parts of a deal add up to the count of the whole |
| MutationScore.CoveredParts | scripts/check_mutation_score.py:474-477 | the non-skipped mutants of the shards add up to all of them |
| MutationScore.SameEverywhere | scripts/check_mutation_score.py:489-494 | what all shards agree on is taken once |
| MutationScore.ShardStats | scripts/check_mutation_score.py:276-315 | a shard counts its own part of each verdict, and the rest as skipped |
| MutationScore.WholeStats | scripts/check_mutation_score.py:276-315 | an unsharded run counts every mutant under its verdict and skips none |
| MutationScore.ScoresFollow | scripts/check_mutation_score.py:325-341 | the scores depend on the counts other than skipped and on excluded |
| MutationScore.ActualRunsAreValid | backend/mutmut_config.py:249-265 | the caches that the shards and the unsharded run leave behind, whatever the verdicts, are the runs that the next theorem is about |
| MutationScore.ShardedEqualsUnsharded | scripts/check_mutation_score.py:449-497 | sharded equals unsharded: the shards of a run export, pass the consistency check and merge into the total, counts, excluded, phantom, score and raw score of one unsharded run |
| MutationScore.ShardRuns | backend/mutmut_config.py:249-265 | a shard runs its part of what the whole run runs and skips the rest |
| MutationTargets.Group | scripts/check_mutation_score.py:403-409 | the loop over the files groups them by target in order of first arrival |
| MutationTargets.MergeJob | scripts/check_mutation_score.py:1182-1204 | grouping, merging target by target and summing gives the specified job stats |
| MutationTargets.ShardsAnyOrder | scripts/check_mutation_score.py:449-497 | one target's shards merge into the same stats and pass the same check in any order |
| MutationTargets.AnyArrival | scripts/check_mutation_score.py:1182-1204 | the job's stats are the same for every order in which its files arrive |
| MutationTargets.TargetEqualsUnsharded | scripts/check_mutation_score.py:449-497 | the shards received for one target pass the check and score as its unsharded run |
| MutationTargets.JobEqualsUnsharded | scripts/check_mutation_score.py:403-507 | the whole job: however its targets are sharded and its files arrive, its counts, total and scores are those of the sum of the targets' unsharded runs |
| MutationTargets.JobCountsEveryMutant | scripts/check_mutation_score.py:500-507 | the job counts every mutant of every target once, under its verdict: one unsharded run of all targets |
| MutationTargets.CheckShards | scripts/check_mutation_score.py:1184-1192 | the loop over the groups finds the first inconsistent target |
| MutationTargets.CheckScores | scripts/check_mutation_score.py:1194-1203 | the loop over the merged targets finds the first without a score, up to an untagged one |
| MutationTargets.JudgeJob | scripts/check_mutation_score.py:1182-1259 | the reason not to judge and the exit code, as specified, in the script's order of checks |
| MutationTargets.ReasonExact | scripts/check_mutation_score.py:1182-1245 | the one reason not to judge a job, whatever was received: other files than were asked for, the first target whose shards make up no run, the first target without a scoreable mutant, a mutant never tested, nothing to score |
| MutationTargets.ExitExact | scripts/check_mutation_score.py:1240-1259 | the exit code: 2 if the job is not judged, 1 exactly if it is and the share of mutants caught is below the floor, 0 otherwise |
| MutationTargets.TargetScored | scripts/check_mutation_score.py:1194-1203 | a target has a score exactly if one of its mutants is scoreable |
| MutationTargets.JobVerdictExact | scripts/check_mutation_score.py:1182-1259 | end to end: the exit code is 2 exactly if a target has nothing scoreable or a mutant is untested, else 1 exactly if the share of all mutants caught is below the floor, whatever the sharding and the order of arrival |
| YieldWatch.MrOutcomes | scripts/kaizen_yield_watch.py:100-117 | a gate has an outcome exactly if a tracked line of findings names it, positive exactly if one such line found something |
| YieldWatch.Watch.Count | scripts/kaizen_yield_watch.py:134-145 | one outcome moves one pair by one step and leaves the others |
| YieldWatch.Watch.Record | scripts/kaizen_yield_watch.py:132-145 | a merge request moves every pair it has an outcome for, in any order of the gates |
| YieldWatch.Watch.Fold | scripts/kaizen_yield_watch.py:120-150 | the whole new state after a batch, and how many merge requests it took in |
| YieldWatch.Watch.Propose | scripts/kaizen_yield_watch.py:276-277 | adds the filed pairs to the proposed ones and changes nothing else |
| YieldWatch.SortSorts | scripts/kaizen_yield_watch.py:127-130 | the batch is sorted by merge time and number |
| YieldWatch.SortedUnique | scripts/kaizen_yield_watch.py:127-130 | merge requests with distinct keys have one sorted order |
| YieldWatch.BatchIs | scripts/kaizen_yield_watch.py:126-130 | a batch holds exactly the merge requests after the watermark, in order |
| YieldWatch.BatchExact | scripts/kaizen_yield_watch.py:120-133 | in merge times and numbers: a fold takes in each merge request merged later than the watermark's time, or at it with a larger number, as often as it is listed, and no other, by merge time and at one time by number |
| YieldWatch.WatermarkExact | scripts/kaizen_yield_watch.py:126-145 | the watermark after a fold is the latest merge time taken in, with the largest number at it, and stays if nothing is |
| YieldWatch.BatchParts | scripts/kaizen_yield_watch.py:120-150 | two folds take in, one after the other, what one fold takes in |
| YieldWatch.FoldTwice | scripts/kaizen_yield_watch.py:120-150 | folding in two parts is folding at once: same pairs and watermark, no more proposals |
| YieldWatch.RefoldIsNothing | scripts/kaizen_yield_watch.py:120-150 | folding the same merge requests again, in any order, changes nothing at all |
| YieldWatch.AnyOrder | scripts/kaizen_yield_watch.py:120-150 | the order within a batch does not matter |
| YieldWatch.NightsAreOneBatch | scripts/kaizen_yield_watch.py:120-150 | any run of nightly batches in watermark order equals one fold of all merge requests |
| YieldWatch.SummaryStep | scripts/kaizen_yield_watch.py:137-145 | one step keeps the pair a summary: runs, zeros, positives, streak as trailing zeros, evidence as the last of that run |
| YieldWatch.PlaySummarizes | scripts/kaizen_yield_watch.py:131-146 | playing a history gives each pair with outcomes the summary of them |
| YieldWatch.StateIsHistory | scripts/kaizen_yield_watch.py:120-150 | after any folds of any lists each pair is the summary of all its outcomes in the merge requests taken in |
| YieldWatch.FoldAllPlays | scripts/kaizen_yield_watch.py:120-150 | any sequence of folds is one play of all the merge requests they took in |
| YieldWatch.StateIsWholeHistory | scripts/kaizen_yield_watch.py:120-150 | after nightly batches in watermark order that is the whole history in order |
| YieldWatch.EvidenceLength | scripts/kaizen_yield_watch.py:137-145 | the evidence is as long as the streak, up to the threshold exactly if that is not 0 or there is no streak |
| YieldWatch.CandidateExact | scripts/kaizen_yield_watch.py:153-163 | a pair is raised exactly if it has outcomes, its last `threshold` ones found nothing and it is neither proposed nor declined, for every threshold |
| YieldRuns.Candidates | scripts/kaizen_yield_watch.py:153-163 | the loop over the pairs finds exactly the candidates |
| YieldRuns.RunNight | scripts/kaizen_yield_watch.py:257-277 | one night folds what was fetched and adds what was filed |
| YieldRuns.FilingIsApart | scripts/kaizen_yield_watch.py:257-277 | over every run the counts and the watermark are those of the folds alone, whatever is filed |
| YieldRuns.RunIsHistory | scripts/kaizen_yield_watch.py:257-277 | after every run, filings included, each pair is the summary of its outcomes in what was taken in |
| YieldRuns.ProposedExact | scripts/kaizen_yield_watch.py:147-150 | over every run a pair is proposed exactly if it was filed on some night, or proposed at the start, and its streak has lasted at the end of every night since |
| YieldRuns.ProposedLast | scripts/kaizen_yield_watch.py:147-163 | in every reachable state the last `threshold` outcomes of a proposed pair found nothing |
| YieldRuns.FiledOnceAStreak | scripts/kaizen_yield_watch.py:147-163 | no pair is filed twice in one streak: between two filings its streak was broken at the end of some night |
| GateScan.ScanGates | scripts/check-rbac-coverage.py:677-806 | the depth-capped recursion with its path of names collects exactly the specified evidence |
| GateScan.NoteCall | scripts/check-rbac-coverage.py:727-757 | marks what the text of a call shows and says whether the call is understood |
| GateScan.HereShows | scripts/check-rbac-coverage.py:729-804 | what a call shows, from its flags: a gate is a role handed over or a gate's name without a readable callee; it may hide one unless an excuse of the source applies |
| GateScan.ScanCallsHas | scripts/check-rbac-coverage.py:727-774 | evidence is shown exactly if the body, a call or a followed callee shows it |
| GateScan.Complete | scripts/check-rbac-coverage.py:677-806 | a search that left nothing unresolved shows whatever a chain without repetitions leads to, and no such chain is longer than the cap |
| GateScan.Sound | scripts/check-rbac-coverage.py:677-806 | whatever is shown lies at the end of a followed chain |
| GateScan.Shorten | scripts/check-rbac-coverage.py:764-768 | with distinct names every chain of calls can be cut to one without repetitions |
| GateScan.ScanExact | scripts/check-rbac-coverage.py:677-806 | with distinct names nothing is unresolved exactly if all that is reached can be read within the cap, and then the evidence is exactly that of the functions reached; what is shown is always reached |
| GateScan.ScanFollows | scripts/check-rbac-coverage.py:677-806 | whatever the names, the same exactly about the chains that repeat no name |
| GateScan.ScanSees | scripts/check-rbac-coverage.py:677-806 | whatever could not be read: a search shows exactly what the functions show that chains of at most four calls lead to without repeating a name, in terms of the flags of their calls, and that a longer chain was cut off |
| GateScan.NegativesExact | scripts/check-rbac-coverage.py:677-806 | negative completeness, exactly: for all bodies a search that reports nothing unresolved has seen everything reached if and only if no two functions share a name |
| GateScan.SharedNameHidesGate | scripts/check-rbac-coverage.py:764-768 | for any two functions of one name there is code in which the search misses a gate and reports nothing unresolved |
| GateScan.CheckWrite | scripts/check-rbac-coverage.py:982-1032 | the verdicts on a write from the merged evidence of its handlers |
| GateScan.MergedHas | scripts/check-rbac-coverage.py:982-988 | merged evidence shows what some handler's evidence shows |
| GateScan.VerdictExact | scripts/check-rbac-coverage.py:990-1032 | with distinct names: "no minimum-role check" and "never resolves a role" are reported exactly if all was read and no function reached has it; a positive verdict rests on a function reached |
| GateScan.VerdictFollows | scripts/check-rbac-coverage.py:990-1032 | whatever the names, the same negative verdicts exactly for what is reached without repeating a name |
| GateScan.WriteExact | scripts/check-rbac-coverage.py:982-1032 | the whole verdict on a write, from the bodies that its handlers lead to within the cap: each answer on membership and role exactly in its case, and the place named where something was not seen |
| CellEditor.TokenizeCell | scripts/kaizen_fastpath_proposal.py:154-187 | the character loop yields the specified tokens or refusal |
| CellEditor.SepExtends | scripts/kaizen_fastpath_proposal.py:71-74 | a separator is matched there whatever follows it |
| CellEditor.SepEnds | scripts/kaizen_fastpath_proposal.py:71-74 | a separator is matched to the end of its white space and no further |
| CellEditor.NoSepAcross | scripts/kaizen_fastpath_proposal.py:71-74 | no separator starts inside an item because of what follows the item |
| CellEditor.SplitConcat | scripts/kaizen_fastpath_proposal.py:154-187 | reading fitting tokens back gives those tokens |
| CellEditor.SplitFits | scripts/kaizen_fastpath_proposal.py:154-187 | what splitting returns spells the text, with items and separators in turn |
| CellEditor.TokenizeExact | scripts/kaizen_fastpath_proposal.py:154-187 | tokenize returns the one way to write the cell as items and separators in turn, and fails exactly if there is none |
| CellExact.ReadingExact | scripts/kaizen_fastpath_proposal.py:154-187 | in terms of the text: tokenizing returns the one reading of a cell as items, balanced and not blank, and arrows and plus signs with the white space around them |
| CellExact.TokenizeFails | scripts/kaizen_fastpath_proposal.py:154-187 | a cell is refused as unbalanced exactly if a parenthesis or backtick is, and for an empty step exactly if it is balanced and has no reading |
| CellExact.SeparatorExact | scripts/kaizen_fastpath_proposal.py:73-74 | a separator is an arrow or a plus sign with white space around it |
| CellExact.StripExact | scripts/kaizen_fastpath_proposal.py:168-200 | stripping takes exactly the white space around a text |
| CellEditor.Names | scripts/kaizen_fastpath_proposal.py:190-211 | whether an item is the gate, alone or with one balanced qualifier, or is ambiguous |
| CellEditor.NamesExact | scripts/kaizen_fastpath_proposal.py:190-211 | an item is the gate exactly if it is the name in backticks, alone or with one balanced qualifier; it is ambiguous exactly if anything else follows the name |
| CellExact.ItemExact | scripts/kaizen_fastpath_proposal.py:190-211 | an item is the gate exactly if it is the name in backticks, alone or with one group of parentheses that closes at its end, and is doubtful exactly if anything else follows the name |
| CellEditor.HitsAre | scripts/kaizen_fastpath_proposal.py:226-226 | the hits are exactly the items that name the gate |
| CellEditor.RemoveGate | scripts/kaizen_fastpath_proposal.py:214-240 | the narrowed cell, nothing, or the refusal that applies |
| CellEditor.PlaceHolds | scripts/kaizen_fastpath_proposal.py:214-223 | the place of an item is where it stands in the steps |
| CellEditor.GroupsDelete | scripts/kaizen_fastpath_proposal.py:234-239 | deleting the item with such a separator takes just it out of its step, and the step only if it was alone |
| CellEditor.DeleteWellFormed | scripts/kaizen_fastpath_proposal.py:234-240 | what is left are items and separators in turn |
| CellEditor.RemovalTokens | scripts/kaizen_fastpath_proposal.py:214-240 | a narrowed cell re-tokenizes to the remaining tokens |
| CellEditor.RemovalTakesOneItem | scripts/kaizen_fastpath_proposal.py:214-240 | a removal takes exactly the one item naming the gate out of the steps of the cell |
| CellEditor.RemovedForGood | scripts/kaizen_fastpath_proposal.py:214-240 | a gate that was taken out is not taken out again |
| CellExact.RemovalExact | scripts/kaizen_fastpath_proposal.py:214-240 | which removal or refusal a cell gives, in each case exactly: doubtful, named in the text only, named twice, the only item, not there, or the text without the one item and a separator |
| CellExact.RemovalFails | scripts/kaizen_fastpath_proposal.py:214-240 | a cell without a reading is refused for that |
| CellExact.CompanionExact | scripts/kaizen_fastpath_proposal.py:233-238 | the separator that goes with an item is rather a plus sign than an arrow, and of two alike the one before it |
| FastPathTable.Narrow | scripts/kaizen_fastpath_proposal.py:271-306 | the table after one candidate |
| FastPathTable.NarrowedNotDeleted | scripts/kaizen_fastpath_proposal.py:286-306 | narrow, never delete: a gate that some row ran still runs in some row, and only covered rows lose just that gate |
| FastPathTable.TableExact | scripts/kaizen_fastpath_proposal.py:273-315 | the whole table from its rows: each covered row whose cell can be rid of the gate loses just that, unless that would leave no row that runs it, by name or through the cluster |
| FastPathTable.RunsExact | scripts/kaizen_fastpath_proposal.py:243-245 | a row runs a gate exactly if the cell has it in backticks or names the cluster that runs it |
| EmitGraph.Emitting | scripts/check-broadcast-deferral.py:410-434 | the fixpoint loop ends, in any order of the functions, with exactly those from which a direct emitter is reached |
| EmitGraph.CallsAny | scripts/check-broadcast-deferral.py:429-433 | whether a call of the function may reach the set so far |
| EmitGraph.EmitsThrough | scripts/check-broadcast-deferral.py:422-434 | a function that calls an emitter emits |
| EmitGraph.EmittersAreIn | scripts/check-broadcast-deferral.py:422-434 | a set that no call enters from outside holds every emitter |
| EmitGraph.TargetsExact | scripts/check-broadcast-deferral.py:410-420 | a call may be the method of that name in the caller's outermost class and module, or any function of that name, as it is made |
| EmitGraph.EmitterExact | scripts/check-broadcast-deferral.py:395-408 | a function emits directly exactly if it calls an emitter on `self` or freely |
| Deferral.DeferredCallables | scripts/check-broadcast-deferral.py:448-503 | the fixpoint loop ends with exactly the callables reached from those registered, and the registrations that name none |
| Deferral.Register | scripts/check-broadcast-deferral.py:458-485 | the callables that the registrations name |
| Deferral.AddCalled | scripts/check-broadcast-deferral.py:496-502 | adds everything that a deferred callable calls by name |
| Deferral.DeferredAreIn | scripts/check-broadcast-deferral.py:487-503 | a closed set that holds the registered callables holds all that is deferred |
| Deferral.ResolvedExact | scripts/check-broadcast-deferral.py:456-482 | which callables a registration names, and when it names none |
| AliasResolver.Resolver.Resolve | scripts/check-serializer-ts-parity.py:758-782 | the memoised recursion with its path of names returns the alias's union, or nothing exactly if it has none, and keeps the memo right |
| AliasResolver.ParseUnions | scripts/check-serializer-ts-parity.py:729-786 | resolving the aliases in any order yields exactly those that are unions, with their members |
| AliasResolver.UnionStep | scripts/check-serializer-ts-parity.py:763-780 | an alias is the union of its parts if every name in it is one and there is a member |
| AliasResolver.RankFalls | scripts/check-serializer-ts-parity.py:761-774 | the names in a resolvable alias unfold in fewer steps, so cutting cycles loses nothing |
| AliasResolver.UnionExact | scripts/check-serializer-ts-parity.py:729-786 | an alias is a union exactly if its chains of names are bounded and end in aliases with a part; its members are the literals at their ends |
| InterfaceBases.Inherit | scripts/check-serializer-ts-parity.py:622-634 | updating the table in place, in any order, gives every interface exactly the fields of its nearest declarations along `extends`, cycles included |
| InterfaceBases.Walk | scripts/check-serializer-ts-parity.py:622-633 | one interface's walk up its bases finds all its fields although the table is partly updated |
| InterfaceBases.Inherited | scripts/check-serializer-ts-parity.py:630-631 | takes over the missing fields of one base and keeps those there |
| InterfaceBases.HasFromBase | scripts/check-serializer-ts-parity.py:622-633 | an interface that does not declare a field has what its base has |
| InterfaceBases.NotInCycle | scripts/check-serializer-ts-parity.py:627-628 | round a cycle that does not declare a field there is none |

## Left out

- HTTP, `glab`, SQLite, subprocesses, the clock, argument parsing, environment and file reading: inputs and oracles of the models.
- YAML, Python, JSON and TypeScript parsing and comment stripping: the models start from rule items, calls, schema trees and alias parts.
- The regular expressions, except those of the record parser and the cell tokenizer, whose languages are written out.
- ApiContract.DiffSound: claims nothing about `oneOf`/`anyOf`, untyped nodes, arrays without `items`, undeclared required names, conflicting `allOf` parts, response enums, request enums added where there was none, and bare read-only strings, because the script does not look at them.
- ApiPaths.Run: references of parameters, bodies and responses are taken as resolved, and parameters sort by place and name.
- The allow-list, the environment-variable diff and `normalize` of the API diff: filters over lists.
- CiRules.RunsOnTag: `only:`/`except:` and the presence of files are not modelled; a literal spelled like a variable name is out.
- CiRules.TagExact: about pipelines in which the reader's answers for single comparisons are right, such as positive comparisons of the tag name holding on the tag; `CiRules.AtomExact` says for which comparisons they always are.
- CiInheritance.SectionReadExact: sections are replaced as a whole, as lists and plain values are; several `<<:` of one block are laid in the order they are written, the first uppermost, which the YAML merge key says of a list of them; where a block inherits from itself, which GitLab refuses, each path is followed once.
- `_guard_need_problem` and the checks of the CI file as a whole: text searches.
- JobVerdict.Evaluate: job statuses are an enumeration, and reducing a job name to its base name is a parameter.
- CostRecord.RecordRoundTrip: the lines other than heading, header, total row, window and footer are known by their openings only, because the parser ignores them.
- CostLedger.FollowupsChain: states the step from one posted follow-up to the next one with a later window, not whole runs of them.
- CostRounding.PriceRows: amounts are exact, without the 28 digits of Python's decimal context.
- MutationScore.ShardedEqualsUnsharded: a target is one source file, as in the table of targets; caches without line tables are left out.
- MutationTargets.JudgeJob: stats files are loaded and have integer counts; the texts of the refusals and the report are left out.
- MutationScore.ExportCache: phantoms and duplicate rows are counted as the code counts them; only clean caches have the theorem.
- Scores are exact fractions; printing them as percentages is left out.
- YieldWatch.NightsAreOneBatch: asks for merge requests with distinct merge times and numbers; proposals are only contained in those of the one fold, because a streak that broke in between drops its proposal (`YieldRuns.ProposedExact` is exact about them).
- YieldWatch.Watch.Propose: appends the new pairs, while the script sorts the list; nothing depends on its order.
- YieldWatch.MrOutcomes: extracting gate lines from descriptions and bucketing branches into shapes are left out.
- GateScan.ScanGates: what a call's text says (lookups, resolvers, markers, local names) is given as flags of the call.
- The other checks of the RBAC script, its recorded exceptions and the recorded exceptions of all scripts: tables.
- FastPathTable.Narrow: one candidate at a time; narrowing for one gate may drop a mention of another inside a qualifier. Splitting rows and matching change classes are parameters.
- EmitGraph.Emitting: keys are paths of names; two functions with the same path are one.
- `scripts/check-ws-event-reachability.py`, the audit gates, the token scripts and the board application itself: short filters, wiring or prose.
