/** The numbered cost records of `scripts/cost-table.py`: what `_render` writes into a note, and
    what the strict `parse_record` reads back out of one. */
module CostRecord {
  import opened Common
  import opened CostText
  import NameOrder

  const MAX_NOTE := 0x8000
  const HEADING := "## Cost of this MR"
  const ISSUE := " (#"
  const DASH := '\U{2014}'
  const RECORD := [' ', DASH] + " record "
  const HEADER_START := "| | "
  const HEADER_END := "Total tokens | Est. cost |"
  const TOTAL_START := "| **Total** | "
  const ROW_END := " |"
  const BOLD := "**"
  const NA_START := "n/a ("
  const END_START := "- Window end: "
  const SPAN_START := "- Window: "
  const STOP := ". "
  const FOOTER_FIRST := FooterText(["`## Gates` ledger lines and the ", "per-model split; "])
  const FOOTER_LATER := FooterText(["measuring scripts' lines for ", "this window and the per-model ", "split; "])

  function FooterText(from: seq<string>): string {
    "_Generated by `scripts/" + ("cost-table.py --comment` from " + ("the " + (Concat(from) + "never typed by hand._")))
  }

  // ----- a record

  datatype Family = Sonnet | Opus | Other

  function FamilyName(f: Family): string {
    match f case Sonnet => "Sonnet" case Opus => "Opus" case Other => "Other"
  }

  /** One cell of the total row: a token count, a sum quantized to cents, the amount as it stands
      on the ledger line, or `n/a` with its reason. */
  datatype Cell = Tokens(n: nat) | Cents(c: nat) | Exact(text: string) | Missing(reason: string)

  datatype Window = FirstEnd(end: string) | FirstNone(reason: string) | Span(start: string, end: string)

  /** `cells` holds a token and a dollar cell for each family, then the two overall ones. */
  datatype Record = Record(k: nat, issue: Option<nat>, other: bool, cells: seq<Cell>, window: Window)

  datatype Figure = Count(n: nat) | Amount(usd: real)

  datatype Parsed = Parsed(k: nat, start: Option<string>, end: Option<string>, other: bool,
    figures: seq<Option<Figure>>)

  function Families(other: bool): seq<Family> {
    if other then [Sonnet, Opus, Other] else [Sonnet, Opus]
  }

  // ----- printing

  function Heading(r: Record): string {
    HEADING + (if r.issue.Some? then ISSUE + Decimal(r.issue.value) + ")" else "")
      + (if r.k > 1 then RECORD + Decimal(r.k) else "")
  }

  function FamilyColumns(f: Family): string {
    FamilyName(f) + " tokens | " + FamilyName(f) + " est. cost | "
  }

  function Columns(fams: seq<Family>): string {
    if fams == [] then HEADER_END else FamilyColumns(fams[0]) + Columns(fams[1..])
  }

  function HeaderRow(other: bool): string {
    HEADER_START + Columns(Families(other))
  }

  function CellText(c: Cell): string {
    match c
    case Tokens(n) => Grouped(n)
    case Cents(c) => CentsText(c) + " USD"
    case Exact(text) => text + " USD"
    case Missing(reason) => NA_START + reason + ")"
  }

  function BoldCells(cells: seq<Cell>): seq<string> {
    if cells == [] then [] else [BOLD + CellText(cells[0]) + BOLD] + BoldCells(cells[1..])
  }

  function TotalRow(cells: seq<Cell>): string
    requires cells != []
  {
    TOTAL_START + Join(BoldCells(cells), BAR) + ROW_END
  }

  /** The window line; `tail` is the prose after the part the parser reads. */
  function WindowLine(w: Window, tail: string): string {
    match w
    case FirstEnd(end) => END_START + end + STOP + tail
    case FirstNone(reason) => END_START + NA_START + reason + ")" + STOP + tail
    case Span(start, end) => SPAN_START + start + " to " + end + STOP + tail
  }

  function Footer(k: nat): string {
    if k == 1 then FOOTER_FIRST else FOOTER_LATER
  }

  /** Every other line of a record: the rule under the header, the side rows, the running total,
      and the bullets. Only their openings matter to the parser. */
  datatype Prose =
    | Blank
    | Rule(tail: string)
    | SubagentRow(tail: string)
    | OrchestratorRow(tail: string)
    | RunningRow(tail: string)
    | FigureBullet(tail: string)
    | CostBullet(tail: string)
    | GapBullet(tail: string)
    | RunningBullet(tail: string)
    | ForeignBullet(notes: nat, tail: string)
    | BudgetBullet(tail: string)

  function Opening(p: Prose): string {
    match p
    case Blank => ""
    case Rule(_) => "|---|"
    case SubagentRow(_) => "| Subagents | "
    case OrchestratorRow(_) => "| Orchestrator | "
    case RunningRow(_) => "| **Running total, records 1-"
    case FigureBullet(_) => "- The "
    case CostBullet(_) => "- Costs are estimates "
    case GapBullet(_) => "- No record covers "
    case RunningBullet(_) => "- Running total: "
    case ForeignBullet(notes, _) => "- " + Decimal(notes) + " note(s) "
    case BudgetBullet(_) => "- Agents over "
  }

  function ProseLine(p: Prose): string {
    Opening(p) + if p.Blank? then "" else p.tail
  }

  function ProseLines(ps: seq<Prose>): seq<string> {
    if ps == [] then [] else [ProseLine(ps[0])] + ProseLines(ps[1..])
  }

  /** The lines of a note: heading, header, total row, window line and footer, with the other
      lines between them. */
  datatype Layout = Layout(afterHeading: seq<Prose>, afterHeader: seq<Prose>, afterTotal: seq<Prose>,
    afterWindow: seq<Prose>, tail: string)

  function Lines(r: Record, lay: Layout): seq<string>
    requires r.cells != []
  {
    [Heading(r)] + LinesBelow(r, lay)
  }

  function LinesBelow(r: Record, lay: Layout): seq<string>
    requires r.cells != []
  {
    ProseLines(lay.afterHeading) + [HeaderRow(r.other)] + ProseLines(lay.afterHeader)
    + [TotalRow(r.cells)] + ProseLines(lay.afterTotal) + [WindowLine(r.window, lay.tail)] + ProseLines(lay.afterWindow)
    + [Footer(r.k)]
  }

  function Body(r: Record, lay: Layout): string
    requires r.cells != []
  {
    Join(Lines(r, lay), "\n")
  }

  // ----- parsing

  function StripCr(s: string): string {
    if s != "" && s[|s| - 1] == '\r' then StripCr(s[..|s| - 1]) else s
  }

  function StripCrs(lines: seq<string>): (r: seq<string>)
    ensures |r| == |lines|
  {
    if lines == [] then [] else [StripCr(lines[0])] + StripCrs(lines[1..])
  }

  function DropBlankTail(lines: seq<string>): seq<string> {
    if lines != [] && lines[|lines| - 1] == "" then DropBlankTail(lines[..|lines| - 1]) else lines
  }

  predicate Ascii(lines: seq<string>) {
    forall i, j | 0 <= i < |lines| && 0 <= j < |lines[i]| :: lines[i][j] < 128 as char
  }

  /** The part after the optional issue reference; None when it is malformed. */
  function AfterIssue(s: string): Option<string> {
    if ISSUE <= s then
      var j := Index(s, ')');
      if j < 3 || j == |s| || ParseNumber(s[3..j], 9).None? then None else Some(s[j + 1..])
    else Some(s)
  }

  function HeadNumber(line: string): Option<nat> {
    if !(HEADING <= line) then None
    else
      var rest := AfterIssue(line[|HEADING|..]);
      if rest.None? then None
      else if rest.value == "" then Some(1)
      else if RECORD <= rest.value then ParseNumber(rest.value[|RECORD|..], 4)
      else None
  }

  function FamilyAt(s: string, after: string): Option<Family> {
    if FamilyName(Sonnet) + after <= s then Some(Sonnet)
    else if FamilyName(Opus) + after <= s then Some(Opus)
    else if FamilyName(Other) + after <= s then Some(Other)
    else None
  }

  /** The leading column pairs of a header, and what follows them. */
  function ColumnPairs(s: string): (seq<(Family, Family)>, string)
    decreases |s|
  {
    var a := FamilyAt(s, " tokens | ");
    if a.None? then ([], s)
    else
      var rest := s[|FamilyName(a.value) + " tokens | "|..];
      var b := FamilyAt(rest, " est. cost | ");
      if b.None? then ([], s)
      else
        var more := ColumnPairs(rest[|FamilyName(b.value) + " est. cost | "|..]);
        ([(a.value, b.value)] + more.0, more.1)
  }

  function HeaderOf(line: string): Option<seq<(Family, Family)>> {
    if HEADER_START <= line then
      var (pairs, rest) := ColumnPairs(line[|HEADER_START|..]);
      if 2 <= |pairs| <= 3 && rest == HEADER_END then Some(pairs) else None
    else None
  }

  function Between(s: string, start: string, end: string, max: nat): Option<string> {
    if |s| > |start| + |end| && |s| <= |start| + max + |end| && start <= s && s[|s| - |end|..] == end
    then Some(s[|start|..|s| - |end|]) else None
  }

  function TotalOf(line: string): Option<string> {
    Between(line, TOTAL_START, ROW_END, 4000)
  }

  predicate NaChar(c: char) { ' ' <= c <= '~' && c != '*' && c != '|' }

  predicate AllNa(s: string) { forall i | 0 <= i < |s| :: NaChar(s[i]) }

  /** What the text between the stars of a cell shows; `Some(None)` is a figure that is not there. */
  function ParseText(tokens: bool, v: string): Option<Option<Figure>> {
    var reason := Between(v, NA_START, ")", 300);
    if reason.Some? && AllNa(reason.value) then Some(None)
    else if tokens then
      var n := ParseGrouped(v, 5);
      if n.None? then None else Some(Some(Count(n.value)))
    else
      var text := Between(v, "", " USD", 37);
      if text.None? || ParseDollars(text.value).None? then None
      else Some(Some(Amount(ParseDollars(text.value).value)))
  }

  function ParseCell(tokens: bool, cell: string): Option<Option<Figure>> {
    var v := Between(cell, BOLD, BOLD, 400);
    if v.None? then None else ParseText(tokens, v.value)
  }

  function ParseCells(tokens: bool, cells: seq<string>): Option<seq<Option<Figure>>>
    decreases cells
  {
    if cells == [] then Some([])
    else
      var first, rest := ParseCell(tokens, cells[0]), ParseCells(!tokens, cells[1..]);
      if first.None? || rest.None? then None else Some([first.value] + rest.value)
  }

  predicate IsTime(s: string) {
    && |s| == 20 && s[4] == s[7] == '-' && s[10] == 'T' && s[13] == s[16] == ':' && s[19] == 'Z'
    && AllDigits(s[..4]) && AllDigits(s[5..7]) && AllDigits(s[8..10])
    && AllDigits(s[11..13]) && AllDigits(s[14..16]) && AllDigits(s[17..19])
  }

  function DaysIn(year: nat, month: nat): nat {
    if month == 2 then (if year % 4 == 0 && (year % 100 != 0 || year % 400 == 0) then 29 else 28)
    else if month == 4 || month == 6 || month == 9 || month == 11 then 30 else 31
  }

  /** A time that the calendar has. */
  predicate ValidTime(s: string) {
    && IsTime(s)
    && 1 <= NumberValue(s[..4]) && 1 <= NumberValue(s[5..7]) <= 12
    && 1 <= NumberValue(s[8..10]) <= DaysIn(NumberValue(s[..4]), NumberValue(s[5..7]))
    && NumberValue(s[11..13]) < 24 && NumberValue(s[14..16]) < 60 && NumberValue(s[17..19]) < 60
  }

  predicate StopsAfter(s: string, k: nat) {
    k <= |s| && STOP <= s[k..]
  }

  /** `s` opens with an `n/a (...)` whose reason has `j` characters, and a stop. */
  predicate NaStopsAt(s: string, j: nat) {
    && |NA_START| + j < |s| && s[|NA_START| + j] == ')'
    && (forall i | |NA_START| <= i < |NA_START| + j :: ' ' <= s[i] <= '~' && s[i] != '|')
    && StopsAfter(s, |NA_START| + j + 1)
  }

  predicate NaThenStop(s: string) {
    NA_START <= s && exists j | 1 <= j <= 300 :: NaStopsAt(s, j)
  }

  datatype Stated = Stated(start: Option<string>, end: Option<string>)

  function WindowOf(first: bool, line: string): Option<Stated> {
    if first && END_START <= line then
      var s := line[|END_START|..];
      if |s| >= 20 && IsTime(s[..20]) && StopsAfter(s, 20) then Some(Stated(None, Some(s[..20])))
      else if NaThenStop(s) then Some(Stated(None, None))
      else None
    else if !first && SPAN_START <= line then
      var s := line[|SPAN_START|..];
      if |s| >= 44 && IsTime(s[..20]) && s[20..24] == " to " && IsTime(s[24..44]) && StopsAfter(s, 44)
      then Some(Stated(Some(s[..20]), Some(s[24..44]))) else None
    else None
  }

  function WindowReader(first: bool): string -> Option<Stated> {
    line => WindowOf(first, line)
  }

  function Found<T>(line: string, f: string -> Option<T>): seq<T> {
    if f(line).Some? then [f(line).value] else []
  }

  function Collect<T>(lines: seq<string>, f: string -> Option<T>): seq<T> {
    if lines == [] then [] else Found(lines[0], f) + Collect(lines[1..], f)
  }

  predicate WindowOk(k: nat, w: Stated) {
    && (w.end.Some? ==> ValidTime(w.end.value))
    && (k > 1 ==> w.start.Some? && w.end.Some? && ValidTime(w.start.value) && NameOrder.Leq(w.start.value, w.end.value))
  }

  function ParseTable(k: nat, pairs: seq<(Family, Family)>, row: string, w: Stated): Option<Parsed> {
    if pairs != [(Sonnet, Sonnet), (Opus, Opus)] && pairs != [(Sonnet, Sonnet), (Opus, Opus), (Other, Other)] then None
    else
      var cells := SplitCells(row, "");
      if |cells| != 2 * |pairs| + 2 then None
      else
        var figures := ParseCells(true, cells);
        if figures.None? || !WindowOk(k, w) then None
        else Some(Parsed(k, w.start, w.end, |pairs| == 3, figures.value))
  }

  function ParseLines(k: nat, lines: seq<string>): Option<Parsed>
    requires lines != []
  {
    if lines[|lines| - 1] != Footer(k) || !Ascii(lines[1..]) then None
    else
      var headers := Collect(lines, HeaderOf);
      var totals := Collect(lines, TotalOf);
      var windows := Collect(lines, WindowReader(k == 1));
      if |headers| != 1 || |totals| != 1 || |windows| != 1 then None
      else ParseTable(k, headers[0], totals[0], windows[0])
  }

  function ParseRecord(body: string): Option<Parsed> {
    if |body| > MAX_NOTE then None
    else
      var lines := StripCrs(SplitLines(body, ""));
      var k := HeadNumber(lines[0]);
      var kept := DropBlankTail(lines);
      if k.None? || k.value == 0 || (k.value == 1 && DASH in lines[0]) || kept == [] then None
      else ParseLines(k.value, kept)
  }

  // ----- what the printer guarantees about its own cells

  /** Reasons and ledger amounts come in a fixed shape. */
  predicate WellMade(c: Cell) {
    match c
    case Tokens(_) => true
    case Cents(_) => true
    case Exact(text) => |text| <= 18 && ParseDollars(text).Some?
    case Missing(reason) => 1 <= |reason| <= 300 && AllNa(reason)
  }

  predicate InColumn(tokens: bool, c: Cell) {
    c.Missing? || (c.Tokens? <==> tokens)
  }

  predicate Columned(tokens: bool, cells: seq<Cell>)
    decreases cells
  {
    cells != [] ==> InColumn(tokens, cells[0]) && WellMade(cells[0]) && Columned(!tokens, cells[1..])
  }

  /** The parser's cell patterns bound the digits: six groups of tokens, eighteen of dollars. */
  predicate CellFits(c: Cell) {
    match c
    case Tokens(n) => n < Pow(1000, 6)
    case Cents(c) => c / 100 < Pow(10, 18)
    case Exact(_) => true
    case Missing(_) => true
  }

  predicate CellsFit(cells: seq<Cell>) {
    forall i | 0 <= i < |cells| :: CellFits(cells[i])
  }

  function FigureOf(c: Cell): Option<Figure>
    requires WellMade(c)
  {
    match c
    case Tokens(n) => Some(Count(n))
    case Cents(c) => Some(Amount(c as real / 100.0))
    case Exact(text) => Some(Amount(ParseDollars(text).value))
    case Missing(_) => None
  }

  function FiguresOf(tokens: bool, cells: seq<Cell>): seq<Option<Figure>>
    requires Columned(tokens, cells)
    decreases cells
  {
    if cells == [] then [] else [FigureOf(cells[0])] + FiguresOf(!tokens, cells[1..])
  }

  // ----- cells

  lemma BetweenRoundTrip(start: string, middle: string, end: string, max: nat)
    ensures Between(start + middle + end, start, end, max) == if 1 <= |middle| <= max then Some(middle) else None
  {
    var s := start + middle + end;
    assert s[|start|..|s| - |end|] == middle && s[|s| - |end|..] == end && s[..|start|] == start;
  }

  lemma {:induction false} GroupedLength(s: string, groups: nat)
    ensures ParseGrouped(s, groups).Some? ==> |s| <= 3 + 4 * groups
  {
    if |s| > 4 && s[|s| - 4] == ',' && groups > 0 {
      GroupedLength(s[..|s| - 4], groups - 1);
    }
  }

  /** A token or dollar text is no `n/a (...)`, which starts with a letter. */
  lemma FigureIsNotMissing(s: string)
    requires s != "" && (IsDigit(s[0]) || s[0] == ',')
    ensures Between(s, NA_START, ")", 300).None?
  {
    assert NA_START[0] == 'n';
  }

  lemma TokensCell(n: nat)
    ensures ParseCell(true, BOLD + CellText(Tokens(n)) + BOLD) == if n < Pow(1000, 6) then Some(Some(Count(n)))
      else None
  {
    hide Grouped, ParseGrouped, Pow;
    var s := Grouped(n);
    BetweenRoundTrip(BOLD, s, BOLD, 400);
    GroupedRoundTrip(n, 5);
    GroupedLength(s, 5);
    GroupedPrintable(n);
    FigureIsNotMissing(s);
  }

  lemma MissingCell(tokens: bool, reason: string)
    requires WellMade(Missing(reason))
    ensures ParseCell(tokens, BOLD + CellText(Missing(reason)) + BOLD) == Some(None)
  {
    BetweenRoundTrip(BOLD, CellText(Missing(reason)), BOLD, 400);
    BetweenRoundTrip(NA_START, reason, ")", 300);
  }

  lemma DollarCell(text: string)
    requires text != "" && IsDigit(text[0])
    ensures ParseCell(false, BOLD + (text + " USD") + BOLD)
         == if |text| <= 37 && ParseDollars(text).Some? then Some(Some(Amount(ParseDollars(text).value))) else None
  {
    hide ParseDollars;
    var v := text + " USD";
    BetweenRoundTrip(BOLD, v, BOLD, 400);
    BetweenRoundTrip("", text, " USD", 37);
    assert "" + text + " USD" == v;
    FigureIsNotMissing(v);
  }

  lemma DollarsStartWithDigit(text: string)
    requires ParseDollars(text).Some?
    ensures text != "" && IsDigit(text[0])
    ensures |text| <= 37
  {
    var k := Index(text, '.');
    assert text[..k] != "" && text[..k][0] == text[0];
  }

  /** Every cell is read back as its figure exactly when it fits the parser's bounds. */
  lemma CellRoundTrip(tokens: bool, c: Cell)
    requires WellMade(c) && InColumn(tokens, c)
    ensures ParseCell(tokens, BOLD + CellText(c) + BOLD) == if CellFits(c) then Some(FigureOf(c)) else None
  {
    hide ParseCell, ParseDollars, Pow, CentsText;
    match c {
      case Tokens(n) => TokensCell(n);
      case Missing(reason) => MissingCell(tokens, reason);
      case Exact(text) => DollarsStartWithDigit(text); DollarCell(text);
      case Cents(n) =>
        CentsRoundTrip(n);
        CentsStartWithDigit(n);
        DollarCell(CentsText(n));
        if ParseDollars(CentsText(n)).Some? {
          DollarsStartWithDigit(CentsText(n));
        }
    }
  }

  lemma CentsStartWithDigit(n: nat)
    ensures CentsText(n) != "" && IsDigit(CentsText(n)[0])
  {
  }

  lemma {:induction false} CellsRoundTrip(tokens: bool, cells: seq<Cell>)
    requires Columned(tokens, cells)
    ensures ParseCells(tokens, BoldCells(cells)) == if CellsFit(cells) then Some(FiguresOf(tokens, cells)) else None
    decreases cells
  {
    hide ParseCell, CellText, CellFits, FigureOf;
    if cells != [] {
      CellRoundTrip(tokens, cells[0]);
      CellsRoundTrip(!tokens, cells[1..]);
      assert CellsFit(cells) <==> CellFits(cells[0]) && CellsFit(cells[1..]) by {
        assert cells == [cells[0]] + cells[1..];
      }
    }
  }

  /** A cell is printable, holds no column bar, and is short if it fits. */
  lemma CellTextShape(c: Cell)
    requires WellMade(c)
    ensures Printable(CellText(c)) && Lacks(CellText(c), '|')
    ensures CellFits(c) ==> |CellText(c)| <= 306
  {
    hide Pow, Grouped, Decimal, ParseDollars, CentsText;
    match c {
      case Tokens(n) =>
        GroupedPrintable(n);
        GroupedRoundTrip(n, 5);
        GroupedLength(Grouped(n), 5);
      case Cents(n) =>
        CentsShape(n);
      case Exact(text) =>
        DollarsShape(text);
      case Missing(_) =>
    }
  }

  lemma CentsShape(n: nat)
    ensures forall i | 0 <= i < |CentsText(n)| :: IsDigit(CentsText(n)[i]) || CentsText(n)[i] == '.'
    ensures n / 100 < Pow(10, 18) ==> |CentsText(n)| <= 21
  {
    hide Pow, Decimal;
    DecimalLength(n / 100, 18);
  }

  lemma DollarsShape(text: string)
    requires ParseDollars(text).Some?
    ensures forall i | 0 <= i < |text| :: IsDigit(text[i]) || text[i] == '.'
  {
    var k := Index(text, '.');
    assert AllDigits(text[..k]);
    forall i | 0 <= i < |text| ensures IsDigit(text[i]) || text[i] == '.' {
      if i < k {
        assert text[i] == text[..k][i];
      } else if i > k {
        assert text[i] == text[k + 1..][i - k - 1];
      }
    }
  }

  lemma {:induction false} BoldCellsShape(tokens: bool, cells: seq<Cell>)
    requires Columned(tokens, cells)
    ensures |BoldCells(cells)| == |cells|
    ensures forall i | 0 <= i < |cells| :: Printable(BoldCells(cells)[i]) && Lacks(BoldCells(cells)[i], '|')
    ensures CellsFit(cells) ==> forall i | 0 <= i < |cells| :: |BoldCells(cells)[i]| <= 310
    decreases cells
  {
    hide CellText, CellFits, WellMade, InColumn;
    if cells != [] {
      CellTextShape(cells[0]);
      BoldCellsShape(!tokens, cells[1..]);
      assert CellsFit(cells) ==> CellFits(cells[0]) && CellsFit(cells[1..]);
    }
  }

  lemma {:induction false} JoinShape(parts: seq<string>, max: nat)
    requires parts != [] && forall i | 0 <= i < |parts| :: Printable(parts[i])
    ensures Printable(Join(parts, BAR))
    ensures (forall i | 0 <= i < |parts| :: |parts[i]| <= max) ==> |Join(parts, BAR)| <= |parts| * (max + 3)
  {
    if |parts| > 1 {
      JoinShape(parts[1..], max);
      assert |parts| * (max + 3) == (|parts| - 1) * (max + 3) + (max + 3);
    }
  }

  /** The total row is recognised and split into its cells again, unless it is over-long, which
      only cells out of bounds can make it. */
  lemma TotalRowRoundTrip(cells: seq<Cell>)
    requires Columned(true, cells) && 1 <= |cells| <= 8
    ensures var row := Join(BoldCells(cells), BAR);
      && (TotalOf(TotalRow(cells)) == Some(row) || (!CellsFit(cells) && TotalOf(TotalRow(cells)) == None))
      && SplitCells(row, "") == BoldCells(cells)
    ensures Printable(TotalRow(cells))
  {
    hide BoldCells, CellsFit, SplitCells, Join, Columned, Between, Lacks;
    BoldCellsShape(true, cells);
    var bold := BoldCells(cells);
    JoinShape(bold, 310);
    SplitJoinedCells(bold);
    JoinNonEmpty(cells);
    TotalRowShape(Join(bold, BAR));
  }

  lemma TotalRowShape(row: string)
    requires Printable(row) && row != ""
    ensures TotalOf(TOTAL_START + row + ROW_END) == if |row| <= 4000 then Some(row) else None
    ensures Printable(TOTAL_START + row + ROW_END)
  {
    BetweenRoundTrip(TOTAL_START, row, ROW_END, 4000);
  }

  lemma JoinNonEmpty(cells: seq<Cell>)
    requires cells != []
    ensures |Join(BoldCells(cells), BAR)| >= 1
  {
  }

  // ----- the header

  lemma FamilyAtName(f: Family, after: string, rest: string)
    requires after != ""
    ensures FamilyAt(FamilyName(f) + after + rest, after) == Some(f)
  {
    var s := FamilyName(f) + after + rest;
    assert FamilyName(f) + after <= s;
    assert FamilyName(Sonnet)[0] == 'S' && FamilyName(Opus)[0] == 'O' && FamilyName(Opus)[1] == 'p'
      && FamilyName(Other)[1] == 't';
    assert s[0] == FamilyName(f)[0] && s[1] == FamilyName(f)[1];
  }

  lemma PairsOfColumns(f: Family, rest: string)
    ensures ColumnPairs(FamilyColumns(f) + rest) == ([(f, f)] + ColumnPairs(rest).0, ColumnPairs(rest).1)
  {
    var name := FamilyName(f);
    var s, mid := FamilyColumns(f) + rest, name + " est. cost | " + rest;
    assert s == name + " tokens | " + mid;
    FamilyAtName(f, " tokens | ", mid);
    assert s[|name + " tokens | "|..] == mid;
    FamilyAtName(f, " est. cost | ", rest);
    assert mid[|name + " est. cost | "|..] == rest;
  }

  function Twice(fams: seq<Family>): seq<(Family, Family)> {
    if fams == [] then [] else [(fams[0], fams[0])] + Twice(fams[1..])
  }

  lemma {:induction false} ColumnsRoundTrip(fams: seq<Family>)
    ensures ColumnPairs(Columns(fams)) == (Twice(fams), HEADER_END)
  {
    if fams == [] {
      assert FamilyName(Sonnet)[0] == 'S' && FamilyName(Opus)[0] == 'O' && FamilyName(Other)[0] == 'O'
        && HEADER_END[0] == 'T';
      assert FamilyAt(HEADER_END, " tokens | ") == None;
    } else {
      PairsOfColumns(fams[0], Columns(fams[1..]));
      ColumnsRoundTrip(fams[1..]);
    }
  }

  function Pairs(other: bool): seq<(Family, Family)> {
    if other then [(Sonnet, Sonnet), (Opus, Opus), (Other, Other)] else [(Sonnet, Sonnet), (Opus, Opus)]
  }

  lemma TwiceFamilies(other: bool)
    ensures Twice(Families(other)) == Pairs(other)
  {
    assert Twice([]) == [];
    assert Twice([Other]) == [(Other, Other)] + Twice([]);
    var tail := if other then [Other] else [];
    assert ([Opus] + tail)[1..] == tail && ([Sonnet, Opus] + tail)[1..] == [Opus] + tail;
    assert Twice([Opus] + tail) == [(Opus, Opus)] + Twice(tail);
    assert Twice([Sonnet, Opus] + tail) == [(Sonnet, Sonnet)] + Twice([Opus] + tail);
    assert Families(other) == [Sonnet, Opus] + tail;
  }

  lemma HeaderRoundTrip(other: bool)
    ensures HeaderOf(HeaderRow(other)) == Some(Pairs(other))
  {
    hide ColumnPairs, Columns;
    var fams := Families(other);
    ColumnsRoundTrip(fams);
    assert HeaderRow(other)[|HEADER_START|..] == Columns(fams);
    TwiceFamilies(other);
  }

  // ----- the window line

  predicate WellMadeWindow(k: nat, w: Window) {
    match w
    case FirstEnd(end) => k == 1 && IsTime(end)
    case FirstNone(reason) => k == 1 && 1 <= |reason| <= 300 && Printable(reason) && Lacks(reason, '|')
    case Span(start, end) => k > 1 && IsTime(start) && IsTime(end)
  }

  function StatedBy(w: Window): Stated {
    match w
    case FirstEnd(end) => Stated(None, Some(end))
    case FirstNone(_) => Stated(None, None)
    case Span(start, end) => Stated(Some(start), Some(end))
  }

  lemma WindowRoundTrip(k: nat, w: Window, tail: string)
    requires WellMadeWindow(k, w)
    ensures WindowOf(k == 1, WindowLine(w, tail)) == Some(StatedBy(w))
  {
    hide IsTime, NaThenStop, WindowOf;
    match w {
      case FirstEnd(end) => FirstEndRoundTrip(end, tail);
      case FirstNone(reason) => FirstNoneRoundTrip(reason, tail);
      case Span(start, end) => SpanRoundTrip(start, end, tail);
    }
  }

  lemma FirstEndRoundTrip(end: string, tail: string)
    requires IsTime(end)
    ensures WindowOf(true, END_START + end + STOP + tail) == Some(Stated(None, Some(end)))
  {
    TimeLength(end);
    hide IsTime, NaThenStop;
    var line, s := END_START + end + STOP + tail, end + STOP + tail;
    assert line[|END_START|..] == s;
    assert s[..20] == end && s[20..] == STOP + tail;
  }

  lemma FirstNoneRoundTrip(reason: string, tail: string)
    requires 1 <= |reason| <= 300 && Printable(reason) && Lacks(reason, '|')
    ensures WindowOf(true, END_START + NA_START + reason + ")" + STOP + tail) == Some(Stated(None, None))
  {
    hide IsTime, NaThenStop, Printable, WindowOf;
    NaReasonStops(reason, tail);
    Associate(END_START, NA_START, reason, ")", STOP, tail);
    NoneIsRead(NA_START + reason + ")" + STOP + tail);
  }

  lemma Associate(a: string, b: string, c: string, d: string, e: string, f: string)
    ensures a + b + c + d + e + f == a + (b + c + d + e + f)
  {
    assert a + (b + c) == a + b + c;
    assert a + (b + c + d) == a + (b + c) + d;
    assert a + (b + c + d + e) == a + (b + c + d) + e;
    assert a + (b + c + d + e + f) == a + (b + c + d + e) + f;
  }

  lemma NoneIsRead(s: string)
    requires NaThenStop(s)
    ensures WindowOf(true, END_START + s) == Some(Stated(None, None))
  {
    assert (END_START + s)[|END_START|..] == s;
    assert NA_START <= s && s[0] == 'n';
    hide IsTime, NaThenStop;
    if |s| >= 20 {
      NotATime(s[..20]);
    }
  }

  lemma SpanRoundTrip(start: string, end: string, tail: string)
    requires IsTime(start) && IsTime(end)
    ensures WindowOf(false, SPAN_START + start + " to " + end + STOP + tail) == Some(Stated(Some(start), Some(end)))
  {
    TimeLength(start);
    TimeLength(end);
    hide IsTime;
    var line, s := SPAN_START + start + " to " + end + STOP + tail, start + " to " + end + STOP + tail;
    assert line[|SPAN_START|..] == s;
    assert s[..20] == start && s[20..24] == " to " && s[24..44] == end && s[44..] == STOP + tail;
  }

  lemma TimeLength(s: string)
    ensures IsTime(s) ==> |s| == 20
  {
  }

  lemma NotATime(s: string)
    requires |s| == 20 && s[0] == 'n'
    ensures !IsTime(s)
  {
    assert s[..4][0] == s[0];
  }

  lemma NaReasonStops(reason: string, tail: string)
    requires 1 <= |reason| <= 300 && Printable(reason) && Lacks(reason, '|')
    ensures NaThenStop(NA_START + reason + ")" + STOP + tail)
  {
    var s := NA_START + reason + ")" + STOP + tail;
    assert s[|NA_START| + |reason| + 1..] == STOP + tail;
    assert NaStopsAt(s, |reason|);
  }

  // ----- the heading

  lemma AfterIssueText(n: nat, rest: string)
    requires n < Pow(10, 9)
    ensures AfterIssue(ISSUE + Decimal(n) + ")" + rest) == Some(rest)
  {
    hide Pow, ParseNumber;
    var s, digits := ISSUE + Decimal(n) + ")" + rest, Decimal(n);
    assert ")" == [')'] && s == (ISSUE + digits) + [')'] + rest;
    assert Lacks(ISSUE + digits, ')');
    IndexAt(ISSUE + digits, ')', rest);
    NumberRoundTrip(n, 9);
    assert s[3..3 + |digits|] == digits;
    assert s[|ISSUE + digits| + 1..] == rest;
  }

  lemma HeadingRoundTrip(r: Record)
    requires r.k >= 1 && (r.issue.Some? ==> r.issue.value < Pow(10, 9))
    ensures HeadNumber(Heading(r)) == if r.k < Pow(10, 4) then Some(r.k) else None
  {
    hide Pow, ParseNumber, AfterIssue;
    var issue := if r.issue.Some? then ISSUE + Decimal(r.issue.value) + ")" else "";
    var number := if r.k > 1 then RECORD + Decimal(r.k) else "";
    assert Heading(r)[|HEADING|..] == issue + number;
    if r.issue.Some? {
      AfterIssueText(r.issue.value, number);
    } else {
      assert issue + number == number;
      NoIssueText(number);
    }
    if r.k > 1 {
      NumberRoundTrip(r.k, 4);
      assert number[|RECORD|..] == Decimal(r.k);
    } else {
      SmallPowers();
    }
  }

  lemma NoIssueText(s: string)
    requires s == "" || RECORD <= s
    ensures AfterIssue(s) == Some(s)
  {
    assert RECORD[1] != ISSUE[1];
  }

  predicate LineSafe(s: string) {
    Lacks(s, '\n') && Lacks(s, '\r')
  }

  lemma HeadingShape(r: Record)
    ensures r.k <= 1 ==> DASH !in Heading(r)
    ensures LineSafe(Heading(r)) && Heading(r)[0] == '#'
  {
    hide Decimal;
    IssueShape(r.issue);
    NumberShape(r.k);
    assert LineSafe(HEADING) && DASH !in HEADING && HEADING[0] == '#';
  }

  lemma IssueShape(issue: Option<nat>)
    ensures var s := if issue.Some? then ISSUE + Decimal(issue.value) + ")" else ""; LineSafe(s) && DASH !in s
  {
    hide Decimal;
    if issue.Some? {
      assert DASH !in Decimal(issue.value);
    }
  }

  lemma NumberShape(k: nat)
    ensures var s := if k > 1 then RECORD + Decimal(k) else ""; LineSafe(s)
  {
    hide Decimal;
    assert LineSafe(" record ");
    assert forall c | c in Decimal(k) :: IsDigit(c);
  }

  lemma SmallPowers()
    ensures Pow(10, 4) == 10000
  {
    assert Pow(10, 1) == 10 * Pow(10, 0);
    assert Pow(10, 2) == 10 * Pow(10, 1);
    assert Pow(10, 3) == 10 * Pow(10, 2);
    assert Pow(10, 4) == 10 * Pow(10, 3);
  }

  // ----- lines the parser passes over

  predicate Inert(first: bool, line: string) {
    HeaderOf(line).None? && TotalOf(line).None? && WindowOf(first, line).None?
  }

  predicate TailOk(p: Prose) {
    p.Blank? || Printable(p.tail)
  }

  lemma BulletInert(first: bool, line: string)
    requires |line| >= 3 && line[0] == '-' && line[2] != 'W'
    ensures Inert(first, line)
  {
    hide ColumnPairs;
    assert END_START[2] == 'W' && SPAN_START[2] == 'W' && HEADER_START[0] == '|' && TOTAL_START[0] == '|';
  }

  lemma RowInert(first: bool, line: string)
    requires |line| >= 5 && line[0] == '|'
    requires line[1] != ' ' || (line[2] != '|' && (line[2] != '*' || line[4] != 'T'))
    ensures Inert(first, line)
  {
    hide ColumnPairs, IsTime, NaThenStop;
    assert HEADER_START[2] == '|' && HEADER_START[1] == ' ';
    assert TOTAL_START[1] == ' ' && TOTAL_START[2] == '*' && TOTAL_START[4] == 'T';
    assert END_START[0] == '-' && SPAN_START[0] == '-';
  }

  lemma ProseInert(first: bool, p: Prose)
    ensures Inert(first, ProseLine(p))
  {
    hide Inert, Decimal;
    var line := ProseLine(p);
    match p {
      case Blank => BlankInert(first);
      case Rule(_) => assert line[1] == '-'; RowInert(first, line);
      case SubagentRow(_) => assert line[2] == 'S'; RowInert(first, line);
      case OrchestratorRow(_) => assert line[2] == 'O'; RowInert(first, line);
      case RunningRow(_) => assert line[2] == '*' && line[4] == 'R'; RowInert(first, line);
      case FigureBullet(_) => assert line[2] == 'T'; BulletInert(first, line);
      case CostBullet(_) => assert line[2] == 'C'; BulletInert(first, line);
      case GapBullet(_) => assert line[2] == 'N'; BulletInert(first, line);
      case RunningBullet(_) => assert line[2] == 'R'; BulletInert(first, line);
      case ForeignBullet(n, _) => assert line[2] == Decimal(n)[0] && IsDigit(line[2]); BulletInert(first, line);
      case BudgetBullet(_) => assert line[2] == 'A'; BulletInert(first, line);
    }
  }

  lemma BlankInert(first: bool)
    ensures Inert(first, "")
  {
  }

  lemma Glue(a: string, b: string)
    requires Printable(a) && Printable(b)
    ensures Printable(a + b)
  {
  }

  lemma RowOpenings()
    ensures Printable("") && Printable("|---|") && Printable("| Subagents | ")
    ensures Printable("| Orchestrator | ") && Printable("| **Running total, records 1-")
  {
  }

  lemma BulletOpenings()
    ensures Printable("- The ") && Printable("- Costs are estimates ") && Printable("- No record covers ")
    ensures Printable("- Running total: ") && Printable("- Agents over ")
  {
  }

  lemma ForeignOpening(notes: nat)
    ensures Printable("- " + Decimal(notes) + " note(s) ")
  {
    Glue("- ", Decimal(notes));
    Glue("- " + Decimal(notes), " note(s) ");
  }

  lemma OpeningPrintable(p: Prose)
    ensures Printable(Opening(p))
  {
    RowOpenings();
    BulletOpenings();
    if p.ForeignBullet? {
      ForeignOpening(p.notes);
    }
    hide Printable, Decimal;
  }

  lemma ProsePrintable(p: Prose)
    requires TailOk(p)
    ensures Printable(ProseLine(p))
  {
    hide Opening;
    OpeningPrintable(p);
    Glue(Opening(p), if p.Blank? then "" else p.tail);
  }

  lemma {:induction false} ProseLinesInert(first: bool, ps: seq<Prose>)
    requires forall i | 0 <= i < |ps| :: TailOk(ps[i])
    ensures forall i | 0 <= i < |ProseLines(ps)| :: Inert(first, ProseLines(ps)[i]) && Printable(ProseLines(ps)[i])
  {
    hide Inert, Printable, TailOk, ProseLine;
    if ps != [] {
      ProseInert(first, ps[0]);
      ProsePrintable(ps[0]);
      ProseLinesInert(first, ps[1..]);
    }
  }

  lemma {:induction false} CollectConcat<T>(a: seq<string>, b: seq<string>, f: string -> Option<T>)
    ensures Collect(a + b, f) == Collect(a, f) + Collect(b, f)
  {
    hide Found, Collect;
    CollectStep(a, f);
    if a == [] {
      assert a + b == b;
      assert [] + Collect(b, f) == Collect(b, f);
    } else {
      CollectConcat(a[1..], b, f);
      CollectStep(a + b, f);
      var here := Found(a[0], f);
      assert (a + b)[0] == a[0] && (a + b)[1..] == a[1..] + b;
      assert here + (Collect(a[1..], f) + Collect(b, f)) == here + Collect(a[1..], f) + Collect(b, f);
    }
  }

  lemma CollectStep<T>(lines: seq<string>, f: string -> Option<T>)
    ensures Collect(lines, f) == if lines == [] then [] else Found(lines[0], f) + Collect(lines[1..], f)
  {
    hide Found;
  }

  lemma {:induction false} CollectNone<T>(a: seq<string>, f: string -> Option<T>)
    requires forall i | 0 <= i < |a| :: f(a[i]).None?
    ensures Collect(a, f) == []
  {
    if a != [] {
      CollectNone(a[1..], f);
    }
  }

  predicate PassesOver<T>(lines: seq<string>, f: string -> Option<T>) {
    forall i | 0 <= i < |lines| :: f(lines[i]).None?
  }

  /** One more line and a stretch of lines the pattern passes over. */
  lemma CollectSection<T>(a: seq<string>, line: string, b: seq<string>, f: string -> Option<T>)
    requires PassesOver(b, f)
    ensures Collect(a + [line] + b, f) == Collect(a, f) + Found(line, f)
  {
    CollectConcat(a + [line], b, f);
    CollectConcat(a, [line], f);
    CollectNone(b, f);
    assert [line][1..] == [] && Collect([line], f) == Found(line, f) + Collect([], f);
    assert Collect(a + [line], f) == Collect(a, f) + Found(line, f);
  }

  // ----- the whole note

  predicate WellMadeRecord(r: Record) {
    && r.k >= 1
    && (r.issue.Some? ==> r.issue.value < Pow(10, 9))
    && |r.cells| == (if r.other then 8 else 6) && Columned(true, r.cells)
    && WellMadeWindow(r.k, r.window)
  }

  predicate WellMadeLayout(lay: Layout) {
    && Printable(lay.tail)
    && forall i | 0 <= i < |AllProse(lay)| :: TailOk(AllProse(lay)[i])
  }

  function AllProse(lay: Layout): seq<Prose> {
    lay.afterHeading + lay.afterHeader + lay.afterTotal + lay.afterWindow
  }

  /** Exactly what a rendered record must meet to be readable again. */
  predicate Readable(r: Record, lay: Layout)
    requires r.cells != []
  {
    && |Body(r, lay)| <= MAX_NOTE
    && r.k < Pow(10, 4)
    && CellsFit(r.cells)
    && WindowOk(r.k, StatedBy(r.window))
  }

  function ParsedOf(r: Record): Parsed
    requires Columned(true, r.cells)
  {
    Parsed(r.k, StatedBy(r.window).start, StatedBy(r.window).end, r.other, FiguresOf(true, r.cells))
  }

  lemma FixedLinesShape(r: Record, tail: string)
    requires WellMadeRecord(r) && Printable(tail)
    ensures var h, t, w, f := HeaderRow(r.other), TotalRow(r.cells), WindowLine(r.window, tail), Footer(r.k);
      && Printable(h) && Printable(t) && Printable(w) && Printable(f) && f != ""
      && HeaderOf(Heading(r)).None? && HeaderOf(t).None? && HeaderOf(w).None? && HeaderOf(f).None?
      && TotalOf(Heading(r)).None? && TotalOf(h).None? && TotalOf(w).None? && TotalOf(f).None?
      && WindowOf(r.k == 1, Heading(r)).None? && WindowOf(r.k == 1, h).None? && WindowOf(r.k == 1, t).None?
        && WindowOf(r.k == 1, f).None?
  {
    HeadingShape(r);
    TotalRowRoundTrip(r.cells);
    HeaderPrintable(r.other);
    WindowPrintable(r, tail);
    FooterShape(r.k);
    Openings(Heading(r), HeaderRow(r.other), TotalRow(r.cells), WindowLine(r.window, tail), Footer(r.k), r.k == 1);
  }

  lemma HeaderPrintable(other: bool)
    ensures Printable(HeaderRow(other)) && HEADER_START <= HeaderRow(other)
  {
    assert forall f :: Printable(FamilyColumns(f));
    ColumnsPrintable(Families(other));
  }

  lemma {:induction false} ColumnsPrintable(fams: seq<Family>)
    ensures Printable(Columns(fams))
  {
    if fams != [] {
      ColumnsPrintable(fams[1..]);
      FamilyColumnsPrintable(fams[0]);
    }
  }

  lemma FamilyColumnsPrintable(f: Family)
    ensures Printable(FamilyColumns(f))
  {
  }

  lemma WindowOpenings()
    ensures Printable(END_START) && Printable(SPAN_START) && Printable(" to ") && Printable(STOP) && Printable(")")
    ensures Printable(END_START + NA_START)
  {
  }

  lemma WindowPrintable(r: Record, tail: string)
    requires WellMadeRecord(r) && Printable(tail)
    ensures Printable(WindowLine(r.window, tail))
      && (END_START <= WindowLine(r.window, tail) || SPAN_START <= WindowLine(r.window, tail))
  {
    hide Printable, IsTime, Columned;
    WindowOpenings();
    match r.window {
      case FirstEnd(end) =>
        TimePrintable(end);
        Glue(END_START, end);
        Glue(END_START + end, STOP);
        Glue(END_START + end + STOP, tail);
      case FirstNone(reason) =>
        Glue(END_START + NA_START, reason);
        Glue(END_START + NA_START + reason, ")");
        Glue(END_START + NA_START + reason + ")", STOP);
        Glue(END_START + NA_START + reason + ")" + STOP, tail);
      case Span(start, end) =>
        TimePrintable(start);
        TimePrintable(end);
        Glue(SPAN_START, start);
        Glue(SPAN_START + start, " to ");
        Glue(SPAN_START + start + " to ", end);
        Glue(SPAN_START + start + " to " + end, STOP);
        Glue(SPAN_START + start + " to " + end + STOP, tail);
    }
  }

  lemma TimePrintable(s: string)
    requires IsTime(s)
    ensures Printable(s)
  {
    assert s == s[..4] + [s[4]] + s[5..7] + [s[7]] + s[8..10] + [s[10]] + s[11..13] + [s[13]] + s[14..16] + [s[16]]
      + s[17..19] + [s[19]];
  }

  lemma {:induction false} ConcatPrintable(parts: seq<string>)
    requires forall i | 0 <= i < |parts| :: Printable(parts[i])
    ensures Printable(Concat(parts))
  {
    if parts != [] {
      ConcatPrintable(parts[1..]);
      Glue(parts[0], Concat(parts[1..]));
    }
  }

  lemma FooterTextShape(from: seq<string>)
    requires forall i | 0 <= i < |from| :: Printable(from[i])
    ensures Printable(FooterText(from)) && FooterText(from) != "" && FooterText(from)[0] == '_'
  {
    hide Concat;
    ConcatPrintable(from);
    Glue(Concat(from), "never typed by hand._");
    var rest := Concat(from) + "never typed by hand._";
    Glue("the ", rest);
    Glue("cost-table.py --comment` from ", "the " + rest);
    Glue("_Generated by `scripts/", "cost-table.py --comment` from " + ("the " + rest));
  }

  lemma FooterPartsPrintable()
    ensures Printable("`## Gates` ledger lines and the ") && Printable("per-model split; ")
    ensures Printable("measuring scripts' lines for ") && Printable("this window and the per-model ")
      && Printable("split; ")
  {
  }

  lemma FooterShape(k: nat)
    ensures Printable(Footer(k)) && Footer(k) != "" && Footer(k)[0] == '_'
  {
    hide FooterText, Printable;
    FooterPartsPrintable();
    FooterTextShape(["`## Gates` ledger lines and the ", "per-model split; "]);
    FooterTextShape(["measuring scripts' lines for ", "this window and the per-model ", "split; "]);
  }

  lemma Openings(heading: string, header: string, total: string, window: string, footer: string, first: bool)
    requires heading != "" && heading[0] == '#' && footer != "" && footer[0] == '_'
    requires HEADER_START <= header && TOTAL_START <= total && (END_START <= window || SPAN_START <= window)
    ensures HeaderOf(heading).None? && HeaderOf(total).None? && HeaderOf(window).None? && HeaderOf(footer).None?
    ensures TotalOf(heading).None? && TotalOf(header).None? && TotalOf(window).None? && TotalOf(footer).None?
    ensures WindowOf(first, heading).None? && WindowOf(first, header).None? && WindowOf(first, total).None?
      && WindowOf(first, footer).None?
  {
    assert HEADER_START[0] == '|' && HEADER_START[2] == '|' && TOTAL_START[0] == '|' && TOTAL_START[2] == '*';
    assert END_START[0] == '-' && SPAN_START[0] == '-';
  }

  /** The body splits back into the lines it was joined from. */
  lemma LinesRoundTrip(r: Record, lay: Layout)
    requires WellMadeRecord(r) && WellMadeLayout(lay)
    ensures SplitLines(Body(r, lay), "") == Lines(r, lay)
    ensures StripCrs(Lines(r, lay)) == Lines(r, lay)
    ensures Ascii(Lines(r, lay)[1..])
  {
    var lines := Lines(r, lay);
    LinesPrintable(r, lay);
    HeadingShape(r);
    assert lines[0] == Heading(r) && lines[1..] == LinesBelow(r, lay);
    hide Lines, LinesBelow, Printable, Heading, LineSafe;
    forall i | 0 <= i < |lines| ensures LineSafe(lines[i]) {
      if i > 0 {
        assert lines[i] == lines[1..][i - 1];
        PrintableLine(lines[i]);
      }
    }
    assert forall i | 0 <= i < |lines| :: Lacks(lines[i], '\n') by { LineSafes(lines); }
    SplitJoinedLines(lines);
    NoCrs(lines);
    AsciiLines(lines[1..]);
  }

  lemma LineSafes(lines: seq<string>)
    requires forall i | 0 <= i < |lines| :: LineSafe(lines[i])
    ensures forall i | 0 <= i < |lines| :: Lacks(lines[i], '\n')
  {
  }

  lemma PrintableLine(s: string)
    requires Printable(s)
    ensures LineSafe(s)
  {
  }

  lemma AsciiLines(lines: seq<string>)
    requires AllPrintable(lines)
    ensures Ascii(lines)
  {
    forall i, j | 0 <= i < |lines| && 0 <= j < |lines[i]| ensures lines[i][j] < 128 as char {
      assert Printable(lines[i]);
    }
  }

  lemma {:induction false} NoCrs(lines: seq<string>)
    requires forall i | 0 <= i < |lines| :: LineSafe(lines[i])
    ensures StripCrs(lines) == lines
  {
    if lines != [] {
      assert LineSafe(lines[0]) && StripCr(lines[0]) == lines[0];
      NoCrs(lines[1..]);
    }
  }

  predicate AllInert(first: bool, lines: seq<string>) {
    forall i | 0 <= i < |lines| :: Inert(first, lines[i])
  }

  lemma SectionShape(lay: Layout, ps: seq<Prose>, off: nat, first: bool)
    requires WellMadeLayout(lay) && off + |ps| <= |AllProse(lay)| && ps == AllProse(lay)[off..off + |ps|]
    ensures AllInert(first, ProseLines(ps)) && AllPrintable(ProseLines(ps))
  {
    hide Inert, Printable, TailOk, ProseLines, AllProse;
    forall i | 0 <= i < |ps| ensures TailOk(ps[i]) {
      assert AllProse(lay)[off + i] == ps[i];
    }
    ProseLinesInert(first, ps);
  }

  /** The sections of prose between the lines the parser knows. */
  lemma LayoutProse(lay: Layout, first: bool)
    requires WellMadeLayout(lay)
    ensures AllInert(first, ProseLines(lay.afterHeading)) && AllPrintable(ProseLines(lay.afterHeading))
    ensures AllInert(first, ProseLines(lay.afterHeader)) && AllPrintable(ProseLines(lay.afterHeader))
    ensures AllInert(first, ProseLines(lay.afterTotal)) && AllPrintable(ProseLines(lay.afterTotal))
    ensures AllInert(first, ProseLines(lay.afterWindow)) && AllPrintable(ProseLines(lay.afterWindow))
  {
    hide ProseLines, AllInert, AllPrintable, WellMadeLayout;
    var a, b, c := |lay.afterHeading|, |lay.afterHeader|, |lay.afterTotal|;
    SectionShape(lay, lay.afterHeading, 0, first);
    SectionShape(lay, lay.afterHeader, a, first);
    SectionShape(lay, lay.afterTotal, a + b, first);
    SectionShape(lay, lay.afterWindow, a + b + c, first);
  }

  predicate AllPrintable(lines: seq<string>) {
    forall i | 0 <= i < |lines| :: Printable(lines[i])
  }

  lemma AppendPrintable(a: seq<string>, line: string, b: seq<string>)
    requires AllPrintable(a) && Printable(line) && AllPrintable(b)
    ensures AllPrintable(a + [line] + b)
  {
    hide Printable;
  }

  lemma LinesPrintable(r: Record, lay: Layout)
    requires WellMadeRecord(r) && WellMadeLayout(lay)
    ensures AllPrintable(LinesBelow(r, lay))
  {
    FixedLinesShape(r, lay.tail);
    LayoutProse(lay, true);
    hide Printable, ProseLines, HeaderOf, TotalOf, WindowOf, Heading, HeaderRow, TotalRow, WindowLine, Footer;
    var a, b, c, d := ProseLines(lay.afterHeading), ProseLines(lay.afterHeader), ProseLines(lay.afterTotal),
      ProseLines(lay.afterWindow);
    AppendPrintable(a, HeaderRow(r.other), b);
    var ab := a + [HeaderRow(r.other)] + b;
    AppendPrintable(ab, TotalRow(r.cells), c);
    var abc := ab + [TotalRow(r.cells)] + c;
    AppendPrintable(abc, WindowLine(r.window, lay.tail), d);
    var abcd := abc + [WindowLine(r.window, lay.tail)] + d;
    AppendPrintable(abcd, Footer(r.k), []);
    assert LinesBelow(r, lay) == abcd + [Footer(r.k)] + [];
  }

  predicate PassesProse<T>(lay: Layout, f: string -> Option<T>) {
    && PassesOver(ProseLines(lay.afterHeading), f) && PassesOver(ProseLines(lay.afterHeader), f)
    && PassesOver(ProseLines(lay.afterTotal), f) && PassesOver(ProseLines(lay.afterWindow), f)
  }

  lemma InertPassed(first: bool, lines: seq<string>)
    requires AllInert(first, lines)
    ensures PassesOver(lines, HeaderOf) && PassesOver(lines, TotalOf) && PassesOver(lines, WindowReader(first))
  {
    hide HeaderOf, TotalOf, WindowOf;
  }

  lemma ProsePassed(lay: Layout, first: bool)
    requires WellMadeLayout(lay)
    ensures PassesProse(lay, HeaderOf) && PassesProse(lay, TotalOf) && PassesProse(lay, WindowReader(first))
  {
    hide WellMadeLayout, ProseLines, AllInert, AllPrintable, PassesOver, HeaderOf, TotalOf, WindowReader;
    LayoutProse(lay, first);
    InertPassed(first, ProseLines(lay.afterHeading));
    InertPassed(first, ProseLines(lay.afterHeader));
    InertPassed(first, ProseLines(lay.afterTotal));
    InertPassed(first, ProseLines(lay.afterWindow));
  }

  /** A pattern that passes over all prose finds what it knows among the five fixed lines. */
  lemma CollectLines<T>(r: Record, lay: Layout, f: string -> Option<T>)
    requires r.cells != [] && PassesProse(lay, f)
    ensures Collect(Lines(r, lay), f)
         == Found(Heading(r), f) + Found(HeaderRow(r.other), f) + Found(TotalRow(r.cells), f)
            + Found(WindowLine(r.window, lay.tail), f) + Found(Footer(r.k), f)
  {
    hide Heading, HeaderRow, TotalRow, WindowLine, Footer, ProseLines, Found, Collect, PassesOver;
    assert PassesOver([], f) by { NothingToPass(f); }
    var a, b, c, d := ProseLines(lay.afterHeading), ProseLines(lay.afterHeader), ProseLines(lay.afterTotal),
      ProseLines(lay.afterWindow);
    var top := [Heading(r)] + a;
    var ab := top + [HeaderRow(r.other)] + b;
    var abc := ab + [TotalRow(r.cells)] + c;
    var abcd := abc + [WindowLine(r.window, lay.tail)] + d;
    CollectSection([], Heading(r), a, f);
    CollectNone([], f);
    assert [] + [Heading(r)] + a == top;
    CollectSection(top, HeaderRow(r.other), b, f);
    CollectSection(ab, TotalRow(r.cells), c, f);
    CollectSection(abc, WindowLine(r.window, lay.tail), d, f);
    CollectSection(abcd, Footer(r.k), [], f);
    LinesAssociate(Heading(r), a, HeaderRow(r.other), b, TotalRow(r.cells), c, WindowLine(r.window, lay.tail), d,
      Footer(r.k));
    assert abcd + [Footer(r.k)] + [] == abcd + [Footer(r.k)];
  }

  lemma NothingToPass<T>(f: string -> Option<T>)
    ensures PassesOver([], f)
  {
  }

  lemma LinesAssociate(h: string, a: seq<string>, x: string, b: seq<string>, y: string, c: seq<string>, z: string,
        d: seq<string>, f: string)
    ensures [h] + (a + [x] + b + [y] + c + [z] + d + [f]) == [h] + a + [x] + b + [y] + c + [z] + d + [f]
  {
    assert [h] + (a + [x] + b + [y] + c + [z] + d + [f]) == [h] + (a + [x] + b + [y] + c + [z] + d) + [f];
    assert [h] + (a + [x] + b + [y] + c + [z] + d) == [h] + (a + [x] + b + [y] + c + [z]) + d;
    assert [h] + (a + [x] + b + [y] + c + [z]) == [h] + (a + [x] + b + [y] + c) + [z];
    assert [h] + (a + [x] + b + [y] + c) == [h] + (a + [x] + b + [y]) + c;
    assert [h] + (a + [x] + b + [y]) == [h] + (a + [x] + b) + [y];
    assert [h] + (a + [x] + b) == [h] + (a + [x]) + b;
    assert [h] + (a + [x]) == [h] + a + [x];
  }

  lemma HeadersFound(r: Record, lay: Layout)
    requires WellMadeRecord(r) && WellMadeLayout(lay)
    ensures Collect(Lines(r, lay), HeaderOf) == [Pairs(r.other)]
  {
    hide Heading, HeaderRow, TotalRow, WindowLine, Footer, Lines, Collect, HeaderOf, TotalOf, WindowOf,
      Printable, Columned, WellMadeWindow, PassesProse, Pairs, Pow;
    FixedLinesShape(r, lay.tail);
    ProsePassed(lay, true);
    HeaderRoundTrip(r.other);
    CollectLines(r, lay, HeaderOf);
  }

  lemma TotalsFound(r: Record, lay: Layout)
    requires WellMadeRecord(r) && WellMadeLayout(lay)
    ensures Collect(Lines(r, lay), TotalOf) == Found(TotalRow(r.cells), TotalOf)
  {
    hide Heading, HeaderRow, TotalRow, WindowLine, Footer, Lines, Collect, HeaderOf, TotalOf, WindowOf,
      Printable, Columned, WellMadeWindow, PassesProse, Pow;
    FixedLinesShape(r, lay.tail);
    ProsePassed(lay, true);
    CollectLines(r, lay, TotalOf);
    assert [] + Found(TotalRow(r.cells), TotalOf) == Found(TotalRow(r.cells), TotalOf);
  }

  lemma WindowsFound(r: Record, lay: Layout)
    requires WellMadeRecord(r) && WellMadeLayout(lay)
    ensures Collect(Lines(r, lay), WindowReader(r.k == 1)) == [StatedBy(r.window)]
  {
    hide Heading, HeaderRow, TotalRow, WindowLine, Footer, Lines, Collect, HeaderOf, TotalOf, WindowOf,
      Printable, Columned, WellMadeWindow, PassesProse, StatedBy, Pow;
    FixedLinesShape(r, lay.tail);
    ProsePassed(lay, r.k == 1);
    WindowRoundTrip(r.k, r.window, lay.tail);
    CollectLines(r, lay, WindowReader(r.k == 1));
  }

  lemma NoBlankTail(lines: seq<string>)
    requires lines != [] && lines[|lines| - 1] != ""
    ensures DropBlankTail(lines) == lines
  {
  }

  lemma LinesParse(r: Record, lay: Layout)
    requires WellMadeRecord(r) && WellMadeLayout(lay)
    ensures ParseLines(r.k, Lines(r, lay))
         == if CellsFit(r.cells) && WindowOk(r.k, StatedBy(r.window)) then Some(ParsedOf(r)) else None
  {
    LinesRoundTrip(r, lay);
    LastLine(r, lay);
    HeadersFound(r, lay);
    TotalsFound(r, lay);
    WindowsFound(r, lay);
    TableRoundTrip(r);
    hide Lines, Footer, Collect, ParseTable, TotalRow, Ascii, CellsFit, WindowOk, Columned, FiguresOf, Printable,
      Found, TotalOf, Body, SplitLines, StripCrs, Pow;
  }

  lemma LastLine(r: Record, lay: Layout)
    requires r.cells != []
    ensures Lines(r, lay)[0] == Heading(r)
    ensures Lines(r, lay)[|Lines(r, lay)| - 1] == Footer(r.k) != ""
  {
    FooterShape(r.k);
    hide Heading, Footer, ProseLines, HeaderRow, TotalRow, WindowLine, Printable;
    var below := LinesBelow(r, lay);
    assert below[|below| - 1] == Footer(r.k);
  }

  /** The printer and the strict parser undo each other: a rendered note parses back to exactly
      its number, window, families and figures if it is `Readable`, and to nothing otherwise. */
  lemma RecordRoundTrip(r: Record, lay: Layout)
    requires WellMadeRecord(r) && WellMadeLayout(lay)
    ensures ParseRecord(Body(r, lay)) == if Readable(r, lay) then Some(ParsedOf(r)) else None
  {
    hide Body, Lines, Heading, Footer, HeadNumber, ParseLines, Ascii, CellsFit, WindowOk, Columned, FiguresOf, Pow,
      Printable, LineSafe, StripCrs, SplitLines, DropBlankTail, WellMadeLayout, WellMadeWindow;
    LinesRoundTrip(r, lay);
    HeadingRoundTrip(r);
    HeadingShape(r);
    LastLine(r, lay);
    NoBlankTail(Lines(r, lay));
    LinesParse(r, lay);
  }

  /** Reading the table back: the cells decide, and then the window. */
  lemma TableRoundTrip(r: Record)
    requires WellMadeRecord(r)
    ensures |Found(TotalRow(r.cells), TotalOf)| <= 1
    ensures CellsFit(r.cells) ==> |Found(TotalRow(r.cells), TotalOf)| == 1
    ensures |Found(TotalRow(r.cells), TotalOf)| == 1 ==>
      var parsed := ParseTable(r.k, Pairs(r.other), Found(TotalRow(r.cells), TotalOf)[0], StatedBy(r.window));
      parsed == if CellsFit(r.cells) && WindowOk(r.k, StatedBy(r.window)) then Some(ParsedOf(r)) else None
  {
    hide TotalRow, TotalOf, ParseCells, SplitCells, BoldCells, Join, Columned, CellsFit, WindowOk, FiguresOf;
    TotalRowRoundTrip(r.cells);
    CellsRoundTrip(true, r.cells);
    BoldCellsShape(true, r.cells);
  }

  lemma {:induction false} NumberBound(s: string)
    requires AllDigits(s)
    ensures NumberValue(s) < Pow(10, |s|)
  {
    if s != "" {
      NumberBound(s[..|s| - 1]);
    }
  }

  /** What is read back has the number of its heading, between 1 and 9999, and a follow-up has a
      window in order: all that the record history relies on. */
  lemma ParsedIsInOrder(body: string)
    requires ParseRecord(body).Some?
    ensures var p := ParseRecord(body).value;
      && HeadNumber(StripCrs(SplitLines(body, ""))[0]) == Some(p.k) && 1 <= p.k <= 9999
      && (p.k > 1 ==> p.start.Some? && p.end.Some? && NameOrder.Leq(p.start.value, p.end.value))
  {
    hide HeaderOf, TotalOf, WindowOf, Collect, ParseCells, SplitCells, Pow;
    HeadNumberBound(StripCrs(SplitLines(body, ""))[0]);
  }

  lemma HeadNumberBound(line: string)
    ensures HeadNumber(line).Some? ==> HeadNumber(line).value <= 9999
  {
    hide NumberValue, Pow;
    if HeadNumber(line).Some? {
      var rest := AfterIssue(line[|HEADING|..]).value;
      if rest != "" {
        NumberBound(rest[|RECORD|..]);
        SmallerPower(|rest[|RECORD|..]|);
      }
    }
  }

  lemma SmallerPower(n: nat)
    requires n <= 4
    ensures Pow(10, n) <= 10000
  {
    assert Pow(10, 1) == 10 && Pow(10, 2) == 100;
    assert Pow(10, 3) == 1000;
    assert Pow(10, 4) == 10000;
  }
}
