/** The figures of a record's total row, from the per-model split and the ledger lines
    (`_render` of `scripts/cost-table.py`), all the way to reading them back. */
module CostTotals {
  import opened Common
  import opened CostRecord
  import CostText
  import CostRounding

  type Side = CostRounding.Side

  const SUB: Side := CostRounding.Subagent
  const ORCH: Side := CostRounding.Orchestrator

  /** The split by side and model family, in tokens and in cents. */
  datatype Split = Split(tokens: map<Side, map<Family, nat>>, usd: map<Side, map<Family, nat>>)

  /** The ledger's total tokens and estimate, or why there is none. */
  datatype Ledger = Ledger(total: Result<nat, string>, estimate: Result<string, string>)

  const NO_SPLIT := "no per-model split recorded; " + "see `## Notes`"
  const NO_USD := "no estimate for this model; " + "see `## Notes`"

  /** A window in which no subagent ran has a subagent side with nothing in it. */
  function WithNoAgents(sp: Split, subagentTokens: Option<nat>): Split {
    if subagentTokens == Some(0) && SUB !in sp.tokens && SUB !in sp.usd then
      Split(sp.tokens[SUB := map[]], sp.usd[SUB := map[]])
    else sp
  }

  predicate Lists(of: map<Side, map<Family, nat>>, side: Side, f: Family) {
    side in of && f in of[side]
  }

  function Get(of: map<Side, map<Family, nat>>, side: Side, f: Family): nat {
    if Lists(of, side, f) then of[side][f] else 0
  }

  /** The third family is shown when the split or an earlier record has it. */
  predicate ShowsOther(sp: Split, earlier: bool) {
    || earlier
    || Lists(sp.tokens, SUB, Other) || Lists(sp.tokens, ORCH, Other)
    || Lists(sp.usd, SUB, Other) || Lists(sp.usd, ORCH, Other)
  }

  predicate BothSplit(sp: Split) { SUB in sp.tokens && ORCH in sp.tokens }

  predicate Priced(sp: Split, f: Family) {
    && BothSplit(sp)
    && (f in sp.tokens[SUB] ==> Lists(sp.usd, SUB, f))
    && (f in sp.tokens[ORCH] ==> Lists(sp.usd, ORCH, f))
  }

  // ----- the record's own totals

  function TokensOf(sp: Split, f: Family): Option<nat> {
    if BothSplit(sp) then Some(Get(sp.tokens, SUB, f) + Get(sp.tokens, ORCH, f)) else None
  }

  function CentsOf(sp: Split, f: Family): Option<nat> {
    if Priced(sp, f) then Some(Get(sp.usd, SUB, f) + Get(sp.usd, ORCH, f)) else None
  }

  function FamilyFigures(sp: Split, fams: seq<Family>): seq<Option<Figure>> {
    if fams == [] then []
    else
      var tokens, cents := TokensOf(sp, fams[0]), CentsOf(sp, fams[0]);
      [if tokens.Some? then Some(Count(tokens.value)) else None,
       if cents.Some? then Some(Amount(cents.value as real / 100.0)) else None]
      + FamilyFigures(sp, fams[1..])
  }

  /** The figures that the next record's running total adds up. */
  function OwnFigures(sp: Split, fams: seq<Family>, ledger: Ledger): seq<Option<Figure>>
    requires ledger.estimate.Ok? ==> CostText.ParseDollars(ledger.estimate.value).Some?
  {
    FamilyFigures(sp, fams)
    + [if ledger.total.Ok? then Some(Count(ledger.total.value)) else None,
       if ledger.estimate.Ok? then Some(Amount(CostText.ParseDollars(ledger.estimate.value).value)) else None]
  }

  // ----- the cells they are printed in

  function FamilyCells(sp: Split, fams: seq<Family>): seq<Cell> {
    if fams == [] then []
    else
      var tokens, cents := TokensOf(sp, fams[0]), CentsOf(sp, fams[0]);
      [if tokens.Some? then Tokens(tokens.value) else Missing(NO_SPLIT),
       if cents.Some? then Cents(cents.value) else Missing(if BothSplit(sp) then NO_USD else NO_SPLIT)]
      + FamilyCells(sp, fams[1..])
  }

  function LedgerCells(ledger: Ledger): seq<Cell> {
    [if ledger.total.Ok? then Tokens(ledger.total.value) else Missing(ledger.total.error),
     if ledger.estimate.Ok? then Exact(ledger.estimate.value) else Missing(ledger.estimate.error)]
  }

  function OwnCells(sp: Split, fams: seq<Family>, ledger: Ledger): seq<Cell> {
    FamilyCells(sp, fams) + LedgerCells(ledger)
  }

  /** The ledger lines are matched strictly: amounts of at most 18 characters, fixed reasons. */
  predicate LedgerOk(ledger: Ledger) {
    && (ledger.total.Err? ==> WellMade(Missing(ledger.total.error)))
    && (if ledger.estimate.Ok? then WellMade(Exact(ledger.estimate.value))
      else WellMade(Missing(ledger.estimate.error)))
  }

  lemma ReasonsOk()
    ensures WellMade(Missing(NO_SPLIT)) && WellMade(Missing(NO_USD))
  {
    hide AllNa;
    NaPieces();
    NaJoined("no per-model split recorded; ", "see `## Notes`");
    NaJoined("no estimate for this model; ", "see `## Notes`");
  }

  lemma NaPieces()
    ensures AllNa("no per-model split recorded; ")
    ensures AllNa("no estimate for this model; ")
    ensures AllNa("see `## Notes`")
  {}

  lemma NaJoined(a: string, b: string)
    requires AllNa(a) && AllNa(b)
    ensures AllNa(a + b)
  {}

  /** A token and a dollar cell before more cells. */
  lemma PairShown(a: Cell, b: Cell, rest: seq<Cell>)
    requires InColumn(true, a) && InColumn(false, b) && WellMade(a) && WellMade(b) && Columned(true, rest)
    ensures Columned(true, [a, b] + rest)
      && FiguresOf(true, [a, b] + rest) == [FigureOf(a), FigureOf(b)] + FiguresOf(true, rest)
  {
    hide WellMade, FigureOf;
    var cells := [a, b] + rest;
    assert cells[1..][0] == b && cells[1..][1..] == rest;
  }

  lemma {:induction false} CellsShowFigures(sp: Split, fams: seq<Family>, ledger: Ledger)
    requires LedgerOk(ledger)
    ensures Columned(true, OwnCells(sp, fams, ledger))
    ensures FiguresOf(true, OwnCells(sp, fams, ledger)) == OwnFigures(sp, fams, ledger)
    ensures |OwnCells(sp, fams, ledger)| == 2 * |fams| + 2
    decreases fams
  {
    hide AllNa, TokensOf, CentsOf, Columned, FiguresOf, CostText.ParseDollars;
    ReasonsOk();
    var cells := OwnCells(sp, fams, ledger);
    if fams == [] {
      var last := LedgerCells(ledger);
      NoCellsShown();
      PairShown(last[0], last[1], []);
      assert cells == [last[0], last[1]] + [];
    } else {
      var rest := OwnCells(sp, fams[1..], ledger);
      CellsShowFigures(sp, fams[1..], ledger);
      assert cells == [cells[0], cells[1]] + rest;
      PairShown(cells[0], cells[1], rest);
    }
  }

  lemma NoCellsShown()
    ensures Columned(true, []) && FiguresOf(true, []) == []
  {}

  /** Every figure of a readable record is read back as the script computed it, n/a included. */
  lemma OwnTotalsReadBack(r: Record, lay: Layout, sp: Split, earlier: bool, ledger: Ledger)
    requires LedgerOk(ledger) && r.other == ShowsOther(sp, earlier)
    requires r.cells == OwnCells(sp, Families(r.other), ledger)
    requires r.k >= 1 && (r.issue.Some? ==> r.issue.value < CostText.Pow(10, 9)) && WellMadeWindow(r.k, r.window)
    requires WellMadeLayout(lay)
    ensures ParseRecord(Body(r, lay)) ==
      if Readable(r, lay)
      then Some(Parsed(r.k, StatedBy(r.window).start, StatedBy(r.window).end, r.other,
        OwnFigures(sp, Families(r.other), ledger)))
      else None
  {
    hide ParseRecord, Body, Readable, OwnCells, OwnFigures, WellMadeLayout, Columned;
    CellsShowFigures(sp, Families(r.other), ledger);
    RecordRoundTrip(r, lay);
  }

  // ----- the totals from the split's own entries

  /** `n` is what a side used of a family, which is nothing if the split does not list it. */
  ghost predicate Used(of: map<Side, map<Family, nat>>, side: Side, f: Family, n: nat) {
    if side in of.Keys && f in of[side].Keys then n == of[side][f] else n == 0
  }

  /** A family's tokens are those of both sides, if both are split. */
  lemma TokensExact(sp: Split, f: Family, sub: nat, orch: nat)
    requires Used(sp.tokens, SUB, f, sub) && Used(sp.tokens, ORCH, f, orch)
    ensures TokensOf(sp, f) == if {SUB, ORCH} <= sp.tokens.Keys then Some(sub + orch) else None
  {
  }

  /** Its estimate is that of both sides, if both are split and neither used it without a price. */
  lemma CentsExact(sp: Split, f: Family, sub: nat, orch: nat)
    requires Used(sp.usd, SUB, f, sub) && Used(sp.usd, ORCH, f, orch)
    ensures CentsOf(sp, f) ==
      if {SUB, ORCH} <= sp.tokens.Keys
        && forall side | side in sp.tokens && f in sp.tokens[side] :: side in sp.usd && f in sp.usd[side]
      then Some(sub + orch) else None
  {
    if BothSplit(sp) && Priced(sp, f) {
      forall side | side in sp.tokens && f in sp.tokens[side] ensures side in sp.usd && f in sp.usd[side] {
        assert side == SUB || side == ORCH;
      }
    }
  }

  /** The third family is shown exactly if an earlier record has it or some side of the split does. */
  lemma OtherExact(sp: Split, earlier: bool)
    ensures ShowsOther(sp, earlier) <==>
      || earlier
      || (exists side :: side in sp.tokens && Other in sp.tokens[side])
      || exists side :: side in sp.usd && Other in sp.usd[side]
  {
    if side :| side in sp.tokens && Other in sp.tokens[side] {
      assert side == SUB || side == ORCH;
    }
    if side :| side in sp.usd && Other in sp.usd[side] {
      assert side == SUB || side == ORCH;
    }
  }

  /** A missing subagent side counts as one of nothing exactly if no subagent ran; a split that has
      anything of the side is left as it is. */
  lemma NoAgentsExact(sp: Split, subagentTokens: Option<nat>)
    ensures var full := WithNoAgents(sp, subagentTokens);
      if subagentTokens == Some(0) && SUB !in sp.tokens && SUB !in sp.usd
      then SUB in full.tokens && full.tokens[SUB] == map[] && SUB in full.usd && full.usd[SUB] == map[]
        && full.tokens - {SUB} == sp.tokens && full.usd - {SUB} == sp.usd
      else full == sp
  {
    var full := WithNoAgents(sp, subagentTokens);
    if subagentTokens == Some(0) && SUB !in sp.tokens && SUB !in sp.usd {
      assert full.tokens - {SUB} == sp.tokens && full.usd - {SUB} == sp.usd;
    }
  }

  /** The two cells of a family: why a figure is missing is that a side has no split, or that there
      is no price. */
  lemma FamilyCellsExact(sp: Split, f: Family, fams: seq<Family>)
    ensures var cells := FamilyCells(sp, [f] + fams);
      && |cells| >= 2 && cells[2..] == FamilyCells(sp, fams)
      && (TokensOf(sp, f).Some? ==> cells[0] == Tokens(TokensOf(sp, f).value))
      && (CentsOf(sp, f).Some? ==> cells[1] == Cents(CentsOf(sp, f).value))
      && (!({SUB, ORCH} <= sp.tokens.Keys) ==> cells[0] == Missing(NO_SPLIT) && cells[1] == Missing(NO_SPLIT))
      && ({SUB, ORCH} <= sp.tokens.Keys && CentsOf(sp, f).None? ==> cells[1] == Missing(NO_USD))
  {
    var cells := FamilyCells(sp, [f] + fams);
    assert ([f] + fams)[1..] == fams;
    assert cells[2..] == FamilyCells(sp, fams);
  }

  // ----- conservation

  function SideTokens(sp: Split, side: Side): nat {
    Get(sp.tokens, side, Sonnet) + Get(sp.tokens, side, Opus) + Get(sp.tokens, side, Other)
  }

  function TokensOr0(sp: Split, f: Family): nat {
    if TokensOf(sp, f).Some? then TokensOf(sp, f).value else 0
  }

  function SumTokens(sp: Split, fams: seq<Family>): nat {
    if fams == [] then 0 else TokensOr0(sp, fams[0]) + SumTokens(sp, fams[1..])
  }

  /** The family totals shown make up exactly the tokens of both sides: no family is left out. */
  lemma FamiliesAddUp(sp: Split, earlier: bool)
    requires BothSplit(sp)
    ensures SumTokens(sp, Families(ShowsOther(sp, earlier))) == SideTokens(sp, SUB) + SideTokens(sp, ORCH)
  {
    hide TokensOf;
    var fams, rest := Families(ShowsOther(sp, earlier)), if ShowsOther(sp, earlier) then [Other] else [];
    assert fams[1..] == [Opus] + rest && ([Opus] + rest)[1..] == rest && [Other][1..] == [];
    assert SumTokens(sp, rest) == if ShowsOther(sp, earlier) then TokensOr0(sp, Other) else 0;
    assert SumTokens(sp, [Opus] + rest) == TokensOr0(sp, Opus) + SumTokens(sp, rest);
    assert SumTokens(sp, fams) == TokensOr0(sp, Sonnet) + SumTokens(sp, [Opus] + rest);
    BothTokens(sp, Sonnet);
    BothTokens(sp, Opus);
    BothTokens(sp, Other);
  }

  lemma BothTokens(sp: Split, f: Family)
    requires BothSplit(sp)
    ensures TokensOr0(sp, f) == Get(sp.tokens, SUB, f) + Get(sp.tokens, ORCH, f)
  {
  }

  /** A family has no estimate exactly if the sides are not both split, or one side used it without
      a price for it. */
  lemma NoEstimate(sp: Split, f: Family)
    ensures CentsOf(sp, f).None? <==>
      !BothSplit(sp) || exists side :: Lists(sp.tokens, side, f) && !Lists(sp.usd, side, f)
  {
    if side :| Lists(sp.tokens, side, f) && !Lists(sp.usd, side, f) {
      assert side == SUB || side == ORCH;
    }
  }

  /** In a window without subagents the totals are the orchestrator's own. */
  lemma NoAgentsTotals(sp: Split, f: Family)
    requires ORCH in sp.tokens && SUB !in sp.tokens && SUB !in sp.usd
    ensures var full := WithNoAgents(sp, Some(0));
      && TokensOf(full, f) == Some(Get(sp.tokens, ORCH, f))
      && CentsOf(full, f) ==
        (if Lists(sp.tokens, ORCH, f) && !Lists(sp.usd, ORCH, f) then None else Some(Get(sp.usd, ORCH, f)))
      && TokensOf(sp, f) == None
  {
  }
}
