/** Pricing responses and rounding the figures (`scripts/est-cost.py`), and when the rounded split
    can disagree with the rounded total (`_render` of `scripts/cost-table.py`). */
module CostRounding {
  import opened Common
  import CostRecord

  // ----- prices

  datatype Rates = Rates(input: real, write5m: real, write1h: real, read: real, output: real)

  /** A model's rates, and those for prompts over a number of tokens. */
  datatype Price = Price(rates: Rates, long: Option<(Rates, int)>)

  /** A response: its token counts, of which `write1h` of the cache writes last an hour. */
  datatype Usage = Usage(input: nat, write: nat, read: nat, output: nat, model: string, write1h: nat, modifier: bool)

  datatype Omit = HasModifier | NoPrice(model: string)

  type Table = map<string, Price>

  predicate Empty(u: Usage) { u.input == 0 && u.write == 0 && u.read == 0 && u.output == 0 }

  /** Millionths of a dollar, by kind of token. */
  function Due(u: Usage, rates: Rates): real {
    u.input as real * rates.input + (u.write - u.write1h) as real * rates.write5m
    + u.write1h as real * rates.write1h + u.read as real * rates.read + u.output as real * rates.output
  }

  function PriceRow(table: Table, u: Usage): Result<real, Omit> {
    if u.modifier then Err(HasModifier)
    else if u.model !in table then Err(NoPrice(u.model))
    else
      var price := table[u.model];
      var rates := if price.long.Some?
        && u.input + u.write + u.read > price.long.value.1 then price.long.value.0 else price.rates;
      Ok(Due(u, rates) / 1000000.0)
  }

  /** The rates that count for a response: the long-prompt ones exactly if the model has them and
      the tokens read in, cached or not, are more than their limit. */
  ghost predicate Tariff(price: Price, u: Usage, rates: Rates) {
    match price.long
    case None => rates == price.rates
    case Some((longRates, limit)) =>
      rates == if u.input + u.write + u.read <= limit then price.rates else longRates
  }

  /** What each token costs: nothing is due for no tokens, and one more token of a kind adds its own
      rate, as long as the prompt stays on its side of the long-prompt limit. */
  lemma TokenPrices(table: Table, u: Usage, rates: Rates)
    requires !u.modifier && u.model in table && Tariff(table[u.model], u, rates)
    ensures PriceRow(table, u).Ok?
    ensures Empty(u) && u.write1h == 0 ==> PriceRow(table, u) == Ok(0.0)
    ensures CostsMore(table, u, u.(input := u.input + 1), rates, rates.input)
    ensures CostsMore(table, u, u.(read := u.read + 1), rates, rates.read)
    ensures CostsMore(table, u, u.(output := u.output + 1), rates, rates.output)
    ensures CostsMore(table, u, u.(write := u.write + 1), rates, rates.write5m)
    ensures CostsMore(table, u, u.(write := u.write + 1, write1h := u.write1h + 1), rates, rates.write1h)
  {
    if Empty(u) && u.write1h == 0 {
      NothingDue(u, rates);
    }
    hide Due;
    OneMore(table, u, u.(input := u.input + 1), rates, rates.input);
    OneMore(table, u, u.(read := u.read + 1), rates, rates.read);
    OneMore(table, u, u.(output := u.output + 1), rates, rates.output);
    OneMore(table, u, u.(write := u.write + 1), rates, rates.write5m);
    OneMore(table, u, u.(write := u.write + 1, write1h := u.write1h + 1), rates, rates.write1h);
  }

  /** Under the same rates the second response costs so many millionths of a dollar more. */
  ghost predicate CostsMore(table: Table, u: Usage, more: Usage, rates: Rates, millionths: real)
    requires u.model in table
  {
    Tariff(table[u.model], more, rates) ==>
      && PriceRow(table, more).Ok? && PriceRow(table, u).Ok?
      && PriceRow(table, more).value == PriceRow(table, u).value + millionths / 1000000.0
  }

  lemma OneMore(table: Table, u: Usage, more: Usage, rates: Rates, millionths: real)
    requires !u.modifier && u.model in table && Tariff(table[u.model], u, rates)
    requires more.modifier == u.modifier && more.model == u.model
    requires || (more == u.(input := u.input + 1) && millionths == rates.input)
             || (more == u.(read := u.read + 1) && millionths == rates.read)
             || (more == u.(output := u.output + 1) && millionths == rates.output)
             || (more == u.(write := u.write + 1) && millionths == rates.write5m)
             || (more == u.(write := u.write + 1, write1h := u.write1h + 1) && millionths == rates.write1h)
    ensures CostsMore(table, u, more, rates, millionths)
  {
    hide Due;
    assert Due(more, rates) == Due(u, rates) + millionths by { DueMore(u, more, rates, millionths); }
    Millionths(Due(u, rates), millionths);
  }

  lemma DueMore(u: Usage, more: Usage, rates: Rates, millionths: real)
    requires || (more == u.(input := u.input + 1) && millionths == rates.input)
             || (more == u.(read := u.read + 1) && millionths == rates.read)
             || (more == u.(output := u.output + 1) && millionths == rates.output)
             || (more == u.(write := u.write + 1) && millionths == rates.write5m)
             || (more == u.(write := u.write + 1, write1h := u.write1h + 1) && millionths == rates.write1h)
    ensures Due(more, rates) == Due(u, rates) + millionths
  {
    MoreTokens(u.input, rates.input);
    MoreTokens(u.write - u.write1h, rates.write5m);
    MoreTokens(u.write1h, rates.write1h);
    MoreTokens(u.read, rates.read);
    MoreTokens(u.output, rates.output);
  }

  lemma NothingDue(u: Usage, rates: Rates)
    requires Empty(u) && u.write1h == 0
    ensures Due(u, rates) == 0.0
  {}

  lemma MoreTokens(count: int, rate: real)
    ensures (count + 1) as real * rate == count as real * rate + rate
  {}

  lemma Millionths(a: real, b: real)
    ensures (a + b) / 1000000.0 == a / 1000000.0 + b / 1000000.0
  {}

  /** A response has no price exactly if a modifier changes it or its model is not in the table. */
  lemma PriceExact(table: Table, u: Usage)
    ensures PriceRow(table, u).Ok? <==> !u.modifier && u.model in table
    ensures PriceRow(table, u) == Err(HasModifier) <==> u.modifier
    ensures PriceRow(table, u) == Err(NoPrice(u.model)) <==> !u.modifier && u.model !in table
  {
  }

  /** The sum of the values of some keys. */
  ghost function SumOver(m: map<string, real>, keys: set<string>): real
    requires keys <= m.Keys
  {
    if keys == {} then 0.0 else
      var k :| k in keys;
      m[k] + SumOver(m, keys - {k})
  }

  lemma {:induction false} SumOverRemove(m: map<string, real>, keys: set<string>, k: string)
    requires keys <= m.Keys && k in keys
    ensures SumOver(m, keys) == m[k] + SumOver(m, keys - {k})
    decreases |keys|
  {
    var first :| first in keys && SumOver(m, keys) == m[first] + SumOver(m, keys - {first});
    if first != k {
      SumOverRemove(m, keys - {first}, k);
      SumOverRemove(m, keys - {k}, first);
      assert keys - {first} - {k} == keys - {k} - {first};
    }
  }

  lemma {:induction false} SumOverSame(m: map<string, real>, n: map<string, real>, keys: set<string>)
    requires keys <= m.Keys && keys <= n.Keys && forall k | k in keys :: m[k] == n[k]
    ensures SumOver(m, keys) == SumOver(n, keys)
    decreases |keys|
  {
    if keys != {} {
      var k :| k in keys;
      SumOverRemove(m, keys, k);
      SumOverRemove(n, keys, k);
      SumOverSame(m, n, keys - {k});
    }
  }

  /** Some token was read, written or put out. */
  ghost predicate HasTokens(u: Usage) {
    u.input > 0 || u.write > 0 || u.read > 0 || u.output > 0
  }

  /** What a response adds to the cost of a model. */
  ghost function RowCost(table: Table, u: Usage, model: string): real {
    if u.model == model && HasTokens(u) && PriceRow(table, u).Ok? then PriceRow(table, u).value else 0.0
  }

  /** What the responses of one model cost. */
  ghost function ModelCost(table: Table, rows: seq<Usage>, model: string): real {
    if rows == [] then 0.0
    else
      var last := rows[|rows| - 1];
      ModelCost(table, rows[..|rows| - 1], model) + RowCost(table, last, model)
  }

  ghost predicate Used(rows: seq<Usage>, model: string) {
    exists i :: 0 <= i < |rows| && HasTokens(rows[i]) && rows[i].model == model
  }

  /** The response stops the estimate: it has tokens, and a modifier or no price. */
  ghost predicate Blocks(table: Table, u: Usage) {
    HasTokens(u) && (u.modifier || u.model !in table)
  }

  ghost predicate FirstBlock(table: Table, rows: seq<Usage>, i: int) {
    0 <= i < |rows| && Blocks(table, rows[i]) && forall j | 0 <= j < i :: !Blocks(table, rows[j])
  }

  /** The total is exactly the sum of the models' costs, or the first row without a price is named. */
  method PriceRows(table: Table, rows: seq<Usage>) returns (r: Result<(real, map<string, real>), Omit>)
    ensures r.Err? ==> exists i :: FirstBlock(table, rows, i) && r.error == PriceRow(table, rows[i]).error
    ensures r.Ok? ==> forall i | 0 <= i < |rows| :: !Blocks(table, rows[i])
    ensures r.Ok? ==> forall model :: model in r.value.1 <==> Used(rows, model)
    ensures r.Ok? ==> forall model | model in r.value.1 :: r.value.1[model] == ModelCost(table, rows, model)
    ensures r.Ok? ==> r.value.0 == SumOver(r.value.1, r.value.1.Keys)
  {
    hide PriceRow, ModelCost, Used, SumOver;
    var total, per := 0.0, map[];
    NoRows(table);
    assert per.Keys == {} && per == map[];
    for i := 0 to |rows|
      invariant forall j | 0 <= j < i :: !Blocks(table, rows[j])
      invariant forall model :: model in per <==> Used(rows[..i], model)
      invariant forall model :: ModelCost(table, rows[..i], model) == if model in per then per[model] else 0.0
      invariant total == SumOver(per, per.Keys)
    {
      var u := rows[i];
      UsedNext(table, rows, i);
      if Empty(u) {
        continue;
      }
      var cost := PriceRow(table, u);
      PriceExact(table, u);
      if cost.Err? {
        assert FirstBlock(table, rows, i);
        return Err(cost.error);
      }
      AddCost(per, u.model, cost.value);
      total := total + cost.value;
      per := per[u.model := (if u.model in per then per[u.model] else 0.0) + cost.value];
    }
    assert rows[..|rows|] == rows;
    return Ok((total, per));
  }

  lemma NoRows(table: Table)
    ensures forall model :: !Used([], model) && ModelCost(table, [], model) == 0.0
    ensures SumOver(map[], {}) == 0.0
  {}

  lemma UsedNext(table: Table, rows: seq<Usage>, i: nat)
    requires i < |rows|
    ensures forall model :: Used(rows[..i + 1], model) <==>
      Used(rows[..i], model) || (HasTokens(rows[i]) && rows[i].model == model)
    ensures forall model ::
      ModelCost(table, rows[..i + 1], model) == ModelCost(table, rows[..i], model) + RowCost(table, rows[i], model)
  {
    hide PriceRow, RowCost, HasTokens;
    var a, b := rows[..i], rows[..i + 1];
    assert b[..|b| - 1] == a;
    assert b[i] == rows[i] && forall j | 0 <= j < i :: b[j] == a[j];
    forall model ensures Used(b, model) <==> Used(a, model) || (HasTokens(rows[i]) && rows[i].model == model) {
      if Used(a, model) {
        var j :| 0 <= j < |a| && HasTokens(a[j]) && a[j].model == model;
        assert HasTokens(b[j]) && b[j].model == model;
      }
    }
  }

  lemma AddCost(per: map<string, real>, model: string, cost: real)
    ensures var more := per[model := (if model in per then per[model] else 0.0) + cost];
      SumOver(more, more.Keys) == SumOver(per, per.Keys) + cost
  {
    var more := per[model := (if model in per then per[model] else 0.0) + cost];
    SumOverRemove(more, more.Keys, model);
    SumOverSame(more, per, per.Keys - {model});
    if model in per {
      SumOverRemove(per, per.Keys, model);
      assert more.Keys - {model} == per.Keys - {model};
    } else {
      assert more.Keys - {model} == per.Keys == per.Keys - {model};
    }
  }

  predicate RatesOk(r: Rates) {
    r.input >= 0.0 && r.write5m >= 0.0 && r.write1h >= 0.0 && r.read >= 0.0 && r.output >= 0.0
  }

  /** What loading a price table checks. */
  predicate TableOk(table: Table) {
    forall model | model in table ::
      RatesOk(table[model].rates) && (table[model].long.Some? ==> RatesOk(table[model].long.value.0))
  }

  lemma ProductNonNegative(n: nat, rate: real)
    requires rate >= 0.0
    ensures n as real * rate >= 0.0
  {}

  lemma PriceNonNegative(table: Table, u: Usage)
    requires TableOk(table) && u.write1h <= u.write && PriceRow(table, u).Ok?
    ensures PriceRow(table, u).value >= 0.0
  {
    var price := table[u.model];
    var rates :=
      if price.long.Some? && u.input + u.write + u.read > price.long.value.1 then price.long.value.0 else price.rates;
    ProductNonNegative(u.input, rates.input);
    ProductNonNegative(u.write - u.write1h, rates.write5m);
    ProductNonNegative(u.write1h, rates.write1h);
    ProductNonNegative(u.read, rates.read);
    ProductNonNegative(u.output, rates.output);
    assert Due(u, rates) >= 0.0;
  }

  /** With a checked table no model's cost is negative, so the printed figures are as the mismatch
      note's tolerance needs them. */
  lemma {:induction false} ModelCostNonNegative(table: Table, rows: seq<Usage>, model: string)
    requires TableOk(table) && forall i | 0 <= i < |rows| :: rows[i].write1h <= rows[i].write
    ensures ModelCost(table, rows, model) >= 0.0
  {
    hide PriceRow, TableOk;
    if rows != [] {
      var last := rows[|rows| - 1];
      ModelCostNonNegative(table, rows[..|rows| - 1], model);
      if PriceRow(table, last).Ok? {
        PriceNonNegative(table, last);
      }
    }
  }

  // ----- rounding

  /** The amount in cents, halves rounded away from zero. */
  function Cents(dollars: real): int {
    if dollars >= 0.0 then (dollars * 100.0 + 0.5).Floor else -((-dollars * 100.0 + 0.5).Floor)
  }

  datatype Side = Subagent | Orchestrator

  type Family = CostRecord.Family

  type Cell = (Side, Family)

  const CELLS: seq<Cell> := [
    (Subagent, CostRecord.Sonnet), (Subagent, CostRecord.Opus), (Subagent, CostRecord.Other),
    (Orchestrator, CostRecord.Sonnet), (Orchestrator, CostRecord.Opus), (Orchestrator, CostRecord.Other)]

  function Get(usd: map<Cell, int>, c: Cell): int { if c in usd then usd[c] else 0 }

  /** What the cells add up to. */
  function Got(usd: map<Cell, int>): int {
    Get(usd, CELLS[0]) + Get(usd, CELLS[1]) + Get(usd, CELLS[2]) + Get(usd, CELLS[3]) + Get(usd, CELLS[4])
      + Get(usd, CELLS[5])
  }

  /** The per-model lines added up by side and model family. */
  function Grouped(lines: seq<(Cell, int)>): map<Cell, int> {
    if lines == [] then map[]
    else
      var before := Grouped(lines[..|lines| - 1]);
      var (c, v) := lines[|lines| - 1];
      before[c := Get(before, c) + v]
  }

  method SplitUsd(lines: seq<(Cell, int)>) returns (usd: map<Cell, int>)
    ensures usd == Grouped(lines)
  {
    usd := map[];
    for i := 0 to |lines|
      invariant usd == Grouped(lines[..i])
    {
      assert lines[..i + 1][..i] == lines[..i];
      usd := usd[lines[i].0 := Get(usd, lines[i].0) + lines[i].1];
    }
    assert lines[..|lines|] == lines;
  }

  function Lines(cells: seq<Cell>, dollars: seq<real>): (r: seq<(Cell, int)>)
    requires |dollars| == |cells|
    ensures |r| == |cells|
  {
    if cells == [] then []
    else Lines(cells[..|cells| - 1], dollars[..|cells| - 1]) + [(cells[|cells| - 1], Cents(dollars[|cells| - 1]))]
  }

  function Total(dollars: seq<real>): real {
    if dollars == [] then 0.0 else Total(dollars[..|dollars| - 1]) + dollars[|dollars| - 1]
  }

  predicate NonNegative(dollars: seq<real>) {
    forall i | 0 <= i < |dollars| :: dollars[i] >= 0.0
  }

  /** The split misses the estimate by more than a cent for each of its cells. */
  predicate Mismatch(usd: map<Cell, int>, total: int) {
    var gap := Got(usd) - total;
    (if gap < 0 then -gap else gap) > |usd|
  }

  /** Both sides have figures; a window in which no subagent ran counts as a subagent side of none. */
  predicate BothSides(cells: seq<Cell>, noAgents: bool) {
    && (exists i :: 0 <= i < |cells| && cells[i].0 == Orchestrator)
    && (noAgents || exists i :: 0 <= i < |cells| && cells[i].0 == Subagent)
  }

  /** Whether figures for these sides and families, printed by the pricing script with their total,
      set the mismatch note off. */
  predicate NoteFires(cells: seq<Cell>, noAgents: bool, dollars: seq<real>)
    requires |dollars| == |cells|
  {
    BothSides(cells, noAgents) && Mismatch(Grouped(Lines(cells, dollars)), Cents(Total(dollars)))
  }

  lemma GotAdds(usd: map<Cell, int>, c: Cell, v: int)
    ensures Got(usd[c := Get(usd, c) + v]) == Got(usd) + v
  {
    match c
    case (Subagent, Sonnet) => assert c == CELLS[0];
    case (Subagent, Opus) => assert c == CELLS[1];
    case (Subagent, Other) => assert c == CELLS[2];
    case (Orchestrator, Sonnet) => assert c == CELLS[3];
    case (Orchestrator, Opus) => assert c == CELLS[4];
    case (Orchestrator, Other) => assert c == CELLS[5];
  }

  function CellSet(cells: seq<Cell>): set<Cell> {
    set i | 0 <= i < |cells| :: cells[i]
  }

  /** Grouping keeps the sum; its cells are those of the lines. */
  lemma {:induction false} GroupedLines(cells: seq<Cell>, dollars: seq<real>)
    requires |dollars| == |cells|
    ensures Got(Grouped(Lines(cells, dollars))) == SumCents(dollars)
    ensures Grouped(Lines(cells, dollars)).Keys == CellSet(cells)
  {
    hide Got, Cents, Get, CellSet;
    if cells == [] {
      NoCells();
    } else {
      var n := |cells| - 1;
      GroupedLines(cells[..n], dollars[..n]);
      var lines := Lines(cells, dollars);
      assert lines[..n] == Lines(cells[..n], dollars[..n]);
      assert lines[n] == (cells[n], Cents(dollars[n]));
      GotAdds(Grouped(lines[..n]), cells[n], Cents(dollars[n]));
      CellSetNext(cells);
    }
  }

  lemma CellSetNext(cells: seq<Cell>)
    requires cells != []
    ensures CellSet(cells) == CellSet(cells[..|cells| - 1]) + {cells[|cells| - 1]}
  {}

  lemma NoCells()
    ensures Got(map[]) == 0 && CellSet([]) == {}
  {}

  function SumCents(dollars: seq<real>): int {
    if dollars == [] then 0 else SumCents(dollars[..|dollars| - 1]) + Cents(dollars[|dollars| - 1])
  }

  /** An amount in whole cents: the nearest, and of two the one further from zero. */
  lemma CentsExact(d: real, cents: int)
    ensures d >= 0.0 ==> (cents == Cents(d) <==> d * 100.0 - 0.5 < cents as real <= d * 100.0 + 0.5)
    ensures d < 0.0 ==> Cents(d) == -Cents(-d)
  {}

  lemma CentsNear(d: real)
    requires d >= 0.0
    ensures d * 100.0 - 0.5 < Cents(d) as real <= d * 100.0 + 0.5
  {
    CentsExact(d, Cents(d));
  }

  /** Within half a unit for each of `m` figures, and strictly so from below. */
  predicate Near(sum: int, exact: real, m: nat) {
    && sum as real <= exact + m as real / 2.0
    && (if m == 0 then sum as real == exact else exact - m as real / 2.0 < sum as real)
  }

  /** Rounding each figure moves the sum by half a cent a figure at most. */
  lemma {:induction false} SumNear(dollars: seq<real>)
    requires NonNegative(dollars)
    ensures Total(dollars) >= 0.0
    ensures Near(SumCents(dollars), Total(dollars) * 100.0, |dollars|)
  {
    hide Cents;
    if dollars != [] {
      var n := |dollars| - 1;
      SumNear(dollars[..n]);
      CentsNear(dollars[n]);
    }
  }

  function Halves(n: nat): (r: seq<real>)
    ensures |r| == n
  {
    if n == 0 then [] else Halves(n - 1) + [0.005]
  }

  lemma {:induction false} HalvesSum(n: nat)
    ensures NonNegative(Halves(n)) && SumCents(Halves(n)) == n && Total(Halves(n)) == n as real * 0.005
  {
    if n > 0 {
      assert Halves(n)[..n - 1] == Halves(n - 1);
      HalvesSum(n - 1);
    }
  }

  /** The note is printed exactly if the orchestrator has a figure, a subagent has one or none ran,
      and the printed figures miss the printed total by more cents than there are cells. */
  lemma FiresExact(cells: seq<Cell>, noAgents: bool, dollars: seq<real>)
    requires |dollars| == |cells|
    ensures var gap, sides := SumCents(dollars) - Cents(Total(dollars)), set c | c in CellSet(cells) :: c.0;
      NoteFires(cells, noAgents, dollars) <==>
        && Orchestrator in sides && (noAgents || Subagent in sides)
        && (gap > |CellSet(cells)| || -gap > |CellSet(cells)|)
  {
    hide Got, Cents, SumCents, Total, Grouped, Lines;
    GroupedLines(cells, dollars);
    SizeIs(Grouped(Lines(cells, dollars)));
    var sides := set c | c in CellSet(cells) :: c.0;
    forall i | 0 <= i < |cells| ensures cells[i].0 in sides {
      assert cells[i] in CellSet(cells);
    }
  }

  /** The note stays silent on every split that the pricing script prints, exactly if a side is
      missing or there are at most twice as many figures as cells, and one more. */
  lemma NoteExact(cells: seq<Cell>, noAgents: bool)
    ensures (forall dollars: seq<real> | |dollars| == |cells| && NonNegative(dollars) ::
      !NoteFires(cells, noAgents, dollars))
       <==> !BothSides(cells, noAgents) || |cells| <= 2 * |CellSet(cells)| + 1
  {
    hide Got, Cents, SumCents, Total, Grouped, Lines, CellSet, NonNegative, BothSides;
    var m, p := |cells|, |CellSet(cells)|;
    forall dollars: seq<real> | |dollars| == m && NonNegative(dollars)
      ensures NoteFires(cells, noAgents, dollars) ==> m > 2 * p + 1
    {
      GroupedLines(cells, dollars);
      SumNear(dollars);
      CentsNear(Total(dollars));
      GapBound(SumCents(dollars), Cents(Total(dollars)), Total(dollars) * 100.0, m);
      SizeIs(Grouped(Lines(cells, dollars)));
    }
    HalvesSum(m);
    GroupedLines(cells, Halves(m));
    SizeIs(Grouped(Lines(cells, Halves(m))));
    HalfTotal(m);
    assert m > 2 * p + 1 && BothSides(cells, noAgents) ==> NoteFires(cells, noAgents, Halves(m));
  }

  lemma GapBound(sum: int, total: int, exact: real, m: nat)
    requires Near(sum, exact, m) && exact - 0.5 < total as real <= exact + 0.5
    ensures 2 * (sum - total) <= m && 2 * (total - sum) <= m
  {
    var gap := sum - total;
    assert gap as real == sum as real - total as real;
    assert (2 * gap) as real < (m + 1) as real;
    assert ((2 * -gap) as real) < (m + 1) as real;
  }

  lemma SizeIs(m: map<Cell, int>)
    ensures |m| == |m.Keys|
  {}

  lemma HalfTotal(m: nat)
    ensures Cents(m as real * 0.005) == (m + 1) / 2
  {
  }
}
