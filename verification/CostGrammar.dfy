/** Which notes the strict parser of cost records accepts, and what it reads out of them: each line
    it looks at written out as a pattern. */
module CostGrammar {
  import opened Common
  import opened CostText
  import opened CostRecord
  import NameOrder

  // ----- pieces

  /** One to `max` digits. */
  ghost predicate Digits(s: string, max: nat) {
    1 <= |s| <= max && forall c | c in s :: '0' <= c <= '9'
  }

  lemma NumberExact(s: string, max: nat, n: nat)
    ensures ParseNumber(s, max) == Some(n) <==> Digits(s, max) && AllDigits(s) && n == NumberValue(s)
    ensures Digits(s, max) ==> AllDigits(s)
  {
    assert forall i | 0 <= i < |s| :: s[i] in s;
  }

  lemma DigitsAre(s: string, max: nat)
    requires Digits(s, max)
    ensures AllDigits(s)
  {
    assert forall i | 0 <= i < |s| :: s[i] in s;
  }

  lemma BetweenExact(s: string, start: string, end: string, max: nat, m: string)
    ensures Between(s, start, end, max) == Some(m) <==> 1 <= |m| <= max && s == start + m + end
  {
    if Between(s, start, end, max) == Some(m) {
      assert s == s[..|start|] + s[|start|..|s| - |end|] + s[|s| - |end|..];
    }
    if s == start + m + end {
      BetweenRoundTrip(start, m, end, max);
    }
  }

  // ----- the heading

  /** A reference to an issue, or nothing. */
  ghost predicate IssuePart(s: string) {
    s == "" || exists d :: Digits(d, 9) && s == " (#" + d + ")"
  }

  /** The number of a follow-up, or nothing for record 1. */
  ghost predicate RecordPart(s: string, k: nat) {
    || (s == "" && k == 1)
    || exists d :: Digits(d, 4) && s == [' ', '\U{2014}'] + " record " + d && ParseNumber(d, 4) == Some(k)
  }

  ghost predicate IsHeading(line: string, k: nat) {
    exists issue, record :: IssuePart(issue) && RecordPart(record, k) && line == "## Cost of this MR" + issue + record
  }

  lemma IssueReads(d: string, rest: string)
    requires Digits(d, 9)
    ensures AfterIssue(" (#" + d + ")" + rest) == Some(rest)
  {
    var s := " (#" + d + ")" + rest;
    assert s == (" (#" + d) + [')'] + rest;
    forall i | 0 <= i < |" (#" + d| ensures (" (#" + d)[i] != ')' {
      assert i >= 3 ==> (" (#" + d)[i] == d[i - 3] && d[i - 3] in d;
    }
    IndexAt(" (#" + d, ')', rest);
    assert s[3..|d| + 3] == d;
    assert s[|d| + 4..] == rest;
    DigitsAre(d, 9);
  }

  lemma IssueIs(s: string, rest: string)
    requires AfterIssue(s) == Some(rest) && ISSUE <= s
    ensures exists issue :: IssuePart(issue) && s == issue + rest
  {
    var j := Index(s, ')');
    var d := s[3..j];
    NumberExact(d, 9, ParseNumber(d, 9).value);
    assert s == " (#" + d + ")" + rest;
    assert IssuePart(" (#" + d + ")");
  }

  lemma RecordReads(rest: string, k: nat)
    ensures (if rest == "" then k == 1
             else RECORD <= rest && ParseNumber(rest[|RECORD|..], 4) == Some(k)) <==> RecordPart(rest, k)
  {
    assert RECORD == [' ', '\U{2014}'] + " record ";
    if rest != "" && RECORD <= rest && ParseNumber(rest[|RECORD|..], 4) == Some(k) {
      assert rest == RECORD + rest[|RECORD|..];
      NumberExact(rest[|RECORD|..], 4, k);
    }
    if d :| Digits(d, 4) && rest == [' ', '\U{2014}'] + " record " + d && ParseNumber(d, 4) == Some(k) {
      assert rest[|RECORD|..] == d && rest[..|RECORD|] == RECORD;
    }
  }

  lemma NoIssue(record: string, k: nat)
    requires RecordPart(record, k)
    ensures !(ISSUE <= record)
  {
    if record != "" {
      assert record[1] == '\U{2014}' && ISSUE[1] == '(';
    }
  }

  lemma HeadingIs(line: string, k: nat)
    requires HeadNumber(line) == Some(k)
    ensures IsHeading(line, k)
  {
    hide AfterIssue, ParseNumber, IssuePart, RecordPart;
    var s := line[|HEADING|..];
    var rest := AfterIssue(s).value;
    assert line == HEADING + s;
    RecordReads(rest, k);
    if ISSUE <= s {
      IssueIs(s, rest);
      var issue :| IssuePart(issue) && s == issue + rest;
      assert line == HEADING + issue + rest;
    } else {
      NoReference(s);
      assert IssuePart("") by { NoIssuePart(); }
      assert line == HEADING + "" + rest;
    }
  }

  lemma NoIssuePart()
    ensures IssuePart("")
  {}

  lemma HeadingReads(issue: string, record: string, k: nat)
    requires IssuePart(issue) && RecordPart(record, k)
    ensures HeadNumber(HEADING + issue + record) == Some(k)
  {
    hide AfterIssue, ParseNumber, RecordPart;
    var line := HEADING + issue + record;
    var s := line[|HEADING|..];
    assert s == issue + record && HEADING <= line;
    if issue == "" {
      assert s == record;
      NoIssue(record, k);
      NoReference(s);
    } else {
      var d :| Digits(d, 9) && issue == " (#" + d + ")";
      IssueReads(d, record);
    }
    RecordReads(record, k);
  }

  /** The number in a first line: 1 without one, and none if the line is no heading. */
  lemma HeadingExact(line: string, k: nat)
    ensures HeadNumber(line) == Some(k) <==> IsHeading(line, k)
  {
    hide HeadNumber, IssuePart, RecordPart;
    if HeadNumber(line) == Some(k) {
      HeadingIs(line, k);
    }
    if issue, record :| IssuePart(issue) && RecordPart(record, k) && line == HEADING + issue + record {
      HeadingReads(issue, record, k);
    }
  }

  lemma NoReference(s: string)
    requires !(ISSUE <= s)
    ensures AfterIssue(s) == Some(s)
  {}

  // ----- the header row

  ghost function Word(f: Family): string {
    match f case Sonnet => "Sonnet" case Opus => "Opus" case Other => "Other"
  }

  /** The pairs of column headings. */
  ghost function PairsText(pairs: seq<(Family, Family)>): string {
    if pairs == [] then ""
    else Word(pairs[0].0) + " tokens | " + (Word(pairs[0].1) + " est. cost | ") + PairsText(pairs[1..])
  }

  ghost predicate IsHeader(line: string, pairs: seq<(Family, Family)>) {
    2 <= |pairs| <= 3 && line == "| | " + PairsText(pairs) + "Total tokens | Est. cost |"
  }

  lemma FamilyReads(f: Family, after: string, rest: string)
    ensures FamilyAt(Word(f) + after + rest, after) == Some(f)
  {
    var s := Word(f) + after + rest;
    assert s[..|Word(f) + after|] == Word(f) + after;
    assert s[0] == Word(f)[0] && s[1] == Word(f)[1];
    assert (FamilyName(Sonnet) + after)[0] == 'S';
    assert (FamilyName(Opus) + after)[0] == 'O' && (FamilyName(Opus) + after)[1] == 'p';
    assert (FamilyName(Other) + after)[0] == 'O' && (FamilyName(Other) + after)[1] == 't';
  }

  lemma FamilyIs(s: string, after: string)
    requires FamilyAt(s, after).Some?
    ensures var head := Word(FamilyAt(s, after).value) + after; head <= s && s == head + s[|head|..]
  {}

  lemma NoFamily(s: string, after: string)
    requires s != "" && s[0] == 'T'
    ensures FamilyAt(s, after).None?
  {
    assert (FamilyName(Sonnet) + after)[0] == 'S';
    assert (FamilyName(Opus) + after)[0] == 'O' && (FamilyName(Other) + after)[0] == 'O';
  }

  lemma PairsStep(pairs: seq<(Family, Family)>, end: string)
    requires pairs != []
    ensures PairsText(pairs) + end == Word(pairs[0].0) + " tokens | "
      + ((Word(pairs[0].1) + " est. cost | ") + (PairsText(pairs[1..]) + end))
  {
    hide Word;
  }

  lemma Behind(a: string, b: string)
    ensures (a + b)[|a|..] == b
  {}

  lemma {:induction false} PairsRead(pairs: seq<(Family, Family)>, end: string)
    requires end != "" && end[0] == 'T'
    ensures ColumnPairs(PairsText(pairs) + end) == (pairs, end)
    decreases |pairs|
  {
    hide FamilyAt, Word, FamilyName;
    if pairs == [] {
      assert PairsText(pairs) + end == end;
      NoFamily(end, " tokens | ");
    } else {
      hide PairsText;
      var a, b := Word(pairs[0].0) + " tokens | ", Word(pairs[0].1) + " est. cost | ";
      var more := PairsText(pairs[1..]) + end;
      PairsStep(pairs, end);
      FamilyReads(pairs[0].0, " tokens | ", b + more);
      WordIsName(pairs[0].0);
      WordIsName(pairs[0].1);
      Behind(a, b + more);
      FamilyReads(pairs[0].1, " est. cost | ", more);
      Behind(b, more);
      PairsRead(pairs[1..], end);
      assert [pairs[0]] + pairs[1..] == pairs;
    }
  }

  lemma WordIsName(f: Family)
    ensures Word(f) == FamilyName(f)
  {}

  lemma {:induction false} PairsAre(s: string)
    ensures s == PairsText(ColumnPairs(s).0) + ColumnPairs(s).1
    decreases |s|
  {
    hide FamilyAt, Word, PairsText, FamilyName;
    var a := FamilyAt(s, " tokens | ");
    NoPairs(s);
    if a.Some? {
      FamilyIs(s, " tokens | ");
      WordIsName(a.value);
      var rest := s[|Word(a.value) + " tokens | "|..];
      var b := FamilyAt(rest, " est. cost | ");
      if b.Some? {
        FamilyIs(rest, " est. cost | ");
        WordIsName(b.value);
        var more := rest[|Word(b.value) + " est. cost | "|..];
        PairsAre(more);
        var pairs := ColumnPairs(s).0;
        assert pairs[0] == (a.value, b.value) && pairs[1..] == ColumnPairs(more).0;
        PairsStep(pairs, ColumnPairs(s).1);
      }
    }
  }

  lemma NoPairs(s: string)
    ensures PairsText([]) + s == s
  {}

  /** A header row is read as its pairs of column headings, two or three of them. */
  lemma HeaderExact(line: string, pairs: seq<(Family, Family)>)
    ensures HeaderOf(line) == Some(pairs) <==> IsHeader(line, pairs)
  {
    hide ColumnPairs, PairsText;
    if HeaderOf(line) == Some(pairs) {
      PairsAre(line[|HEADER_START|..]);
      assert line == HEADER_START + line[|HEADER_START|..];
    }
    if IsHeader(line, pairs) {
      PairsRead(pairs, HEADER_END);
      assert line[|HEADER_START|..] == PairsText(pairs) + HEADER_END;
    }
  }

  // ----- the total row

  ghost predicate IsTotal(line: string, row: string) {
    1 <= |row| <= 4000 && line == "| **Total** | " + row + " |"
  }

  lemma TotalExact(line: string, row: string)
    ensures TotalOf(line) == Some(row) <==> IsTotal(line, row)
  {
    BetweenExact(line, TOTAL_START, ROW_END, 4000, row);
  }

  /** Printable ASCII but `*` and `|`. */
  ghost predicate ReasonText(s: string) {
    1 <= |s| <= 300 && forall c | c in s :: ' ' <= c <= '~' && c !in "*|"
  }

  ghost predicate IsGroups(groups: seq<string>) {
    && groups != [] && Digits(groups[0], 3)
    && forall i | 0 < i < |groups| :: |groups[i]| == 3 && Digits(groups[i], 3)
  }

  /** What groups of digits, in thousands, come to. */
  ghost function GroupsValue(groups: seq<string>): nat
    requires forall i | 0 <= i < |groups| :: AllDigits(groups[i])
  {
    if groups == [] then 0 else 1000 * GroupsValue(groups[..|groups| - 1]) + NumberValue(groups[|groups| - 1])
  }

  /** The groups spell the number. */
  ghost predicate Spelled(s: string, groups: seq<string>, n: nat) {
    && IsGroups(groups) && s == Join(groups, ",")
    && (forall i | 0 <= i < |groups| :: AllDigits(groups[i])) && n == GroupsValue(groups)
  }

  /** A number with commas between its groups of three digits, at most six of them. */
  ghost predicate IsCount(s: string, n: nat) {
    exists groups :: Spelled(s, groups, n) && |groups| <= 6
  }

  /** Digits, with a point and more digits or without, of at most eighteen each. */
  ghost predicate IsAmount(s: string, usd: real) {
    IsWhole(s, usd) || exists whole, part :: IsDecimal(s, whole, part, usd)
  }

  ghost predicate IsWhole(s: string, usd: real) {
    Digits(s, 18) && AllDigits(s) && usd == NumberValue(s) as real
  }

  ghost predicate IsDecimal(s: string, whole: string, part: string, usd: real) {
    && Digits(whole, 18) && AllDigits(whole) && Digits(part, 18) && AllDigits(part) && s == whole + "." + part
    && Pow(10, |part|) > 0
    && usd == NumberValue(whole) as real + NumberValue(part) as real / Pow(10, |part|) as real
  }

  /** What a cell of the total row shows: nothing but a reason, a number of tokens, or an amount. */
  ghost predicate ShowsText(tokens: bool, v: string, figure: Option<Figure>) {
    if figure.None? then exists reason :: ReasonText(reason) && v == "n/a (" + reason + ")"
    else if figure.value.Count? then tokens && IsCount(v, figure.value.n)
    else !tokens && exists text :: |text| <= 37 && v == text + " USD" && IsAmount(text, figure.value.usd)
  }

  ghost predicate Shows(tokens: bool, cell: string, figure: Option<Figure>) {
    exists v :: 1 <= |v| <= 400 && cell == "**" + v + "**" && ShowsText(tokens, v, figure)
  }

  lemma {:induction false} JoinSnoc(parts: seq<string>, x: string, sep: string)
    requires parts != []
    ensures Join(parts + [x], sep) == Join(parts, sep) + sep + x
    decreases |parts|
  {
    assert (parts + [x])[0] == parts[0];
    if |parts| == 1 {
      assert (parts + [x])[1..] == [x];
    } else {
      JoinSnoc(parts[1..], x, sep);
      assert (parts + [x])[1..] == parts[1..] + [x];
      assert parts[0] + sep + (Join(parts[1..], sep) + sep + x) == parts[0] + sep + Join(parts[1..], sep) + sep + x;
    }
  }

  lemma SpelledOne(s: string, n: nat)
    requires Digits(s, 3) && AllDigits(s) && n == NumberValue(s)
    ensures Spelled(s, [s], n)
  {
    assert [s][..0] == [];
  }

  lemma SpelledMore(head: string, groups: seq<string>, tail: string, n: nat)
    requires Spelled(head, groups, n) && |tail| == 3 && Digits(tail, 3) && AllDigits(tail)
    ensures Spelled(head + "," + tail, groups + [tail], 1000 * n + NumberValue(tail))
  {
    JoinSnoc(groups, tail, ",");
    assert (groups + [tail])[..|groups|] == groups;
  }

  lemma SpelledLess(s: string, groups: seq<string>, n: nat)
    requires Spelled(s, groups, n) && |groups| > 1
    ensures var init, tail := groups[..|groups| - 1], groups[|groups| - 1];
      && Spelled(Join(init, ","), init, GroupsValue(init)) && s == Join(init, ",") + "," + tail
      && |tail| == 3 && Digits(tail, 3) && AllDigits(tail) && n == 1000 * GroupsValue(init) + NumberValue(tail)
      && Join(init, ",") != ""
  {
    var init, tail := groups[..|groups| - 1], groups[|groups| - 1];
    JoinSnoc(init, tail, ",");
    assert init + [tail] == groups;
    assert Join(init, ",") != "" by { JoinNotEmpty(init); }
  }

  lemma JoinNotEmpty(parts: seq<string>)
    requires parts != [] && parts[0] != ""
    ensures Join(parts, ",") != ""
  {}

  lemma LastThree(s: string)
    requires |s| > 4 && s[|s| - 4] == ','
    ensures s == s[..|s| - 4] + "," + s[|s| - 3..]
  {
    assert s == s[..|s| - 4] + [s[|s| - 4]] + s[|s| - 3..];
  }

  lemma {:induction false} GroupedReads(s: string, bound: nat, groups: seq<string>, n: nat)
    requires Spelled(s, groups, n) && |groups| <= bound + 1
    ensures ParseGrouped(s, bound) == Some(n)
    decreases |groups|
  {
    hide Spelled, ParseNumber;
    if |groups| == 1 {
      OneGroupIs(s, groups, n);
      NumberExact(s, 3, n);
    } else {
      SpelledSome(s, groups, n);
      SpelledLess(s, groups, n);
      var init, tail := groups[..|groups| - 1], groups[|groups| - 1];
      GroupedReads(Join(init, ","), bound - 1, init, GroupsValue(init));
      NumberExact(tail, 3, NumberValue(tail));
      TailOf(Join(init, ","), tail);
    }
  }

  lemma TailOf(head: string, tail: string)
    requires |tail| == 3 && head != ""
    ensures var s := head + "," + tail; |s| > 4 && s[|s| - 4] == ',' && s[|s| - 3..] == tail && s[..|s| - 4] == head
  {}

  lemma SpelledSome(s: string, groups: seq<string>, n: nat)
    requires Spelled(s, groups, n)
    ensures groups != []
  {}

  lemma OneGroupIs(s: string, groups: seq<string>, n: nat)
    requires Spelled(s, groups, n) && |groups| == 1
    ensures Digits(s, 3) && AllDigits(s) && n == NumberValue(s)
  {
    assert s == groups[0];
    assert GroupsValue(groups) == 1000 * GroupsValue(groups[..0]) + NumberValue(groups[0]);
    assert groups[..0] == [];
  }

  lemma {:induction false} GroupedIs(s: string, bound: nat) returns (groups: seq<string>)
    requires ParseGrouped(s, bound).Some?
    ensures Spelled(s, groups, ParseGrouped(s, bound).value) && |groups| <= bound + 1
    decreases |s|
  {
    hide Spelled, ParseNumber;
    if |s| > 4 && s[|s| - 4] == ',' {
      var head, tail := s[..|s| - 4], s[|s| - 3..];
      NumberExact(tail, 3, ParseNumber(tail, 3).value);
      var init := GroupedIs(head, bound - 1);
      SpelledMore(head, init, tail, ParseGrouped(head, bound - 1).value);
      LastThree(s);
      groups := init + [tail];
    } else {
      NumberExact(s, 3, ParseNumber(s, 3).value);
      SpelledOne(s, ParseNumber(s, 3).value);
      groups := [s];
    }
  }

  lemma CountExact(s: string, n: nat)
    ensures ParseGrouped(s, 5) == Some(n) <==> IsCount(s, n)
  {
    hide ParseGrouped;
    if ParseGrouped(s, 5) == Some(n) {
      var groups := GroupedIs(s, 5);
    }
    if groups :| Spelled(s, groups, n) && |groups| <= 6 {
      GroupedReads(s, 5, groups, n);
    }
  }

  lemma NoPoint(s: string, max: nat)
    requires Digits(s, max)
    ensures Lacks(s, '.') && Index(s, '.') == |s|
  {
    assert forall i | 0 <= i < |s| :: s[i] in s;
  }

  lemma AmountIs(s: string, usd: real)
    requires ParseDollars(s) == Some(usd)
    ensures IsAmount(s, usd)
  {
    hide Pow;
    var k := Index(s, '.');
    NumberExact(s[..k], 18, ParseNumber(s[..k], 18).value);
    if k == |s| {
      assert s[..k] == s;
      assert IsWhole(s, usd);
    } else {
      var whole, part := s[..k], s[k + 1..];
      NumberExact(part, 18, ParseNumber(part, 18).value);
      PowPositive(10, |part|);
      assert s == whole + [s[k]] + part;
      assert |part| == |s| - k - 1;
      assert IsDecimal(s, whole, part, usd);
    }
  }

  lemma WholeReads(s: string, usd: real)
    requires IsWhole(s, usd)
    ensures ParseDollars(s) == Some(usd)
  {
    NoPoint(s, 18);
    assert s[..|s|] == s;
  }

  lemma DecimalReads(s: string, whole: string, part: string, usd: real)
    requires IsDecimal(s, whole, part, usd)
    ensures ParseDollars(s) == Some(usd)
  {
    hide Pow;
    NoPoint(whole, 18);
    assert "." == ['.'];
    IndexAt(whole, '.', part);
    assert s[..|whole|] == whole && s[|whole| + 1..] == part;
    assert |part| == |s| - |whole| - 1;
  }

  lemma AmountExact(s: string, usd: real)
    ensures ParseDollars(s) == Some(usd) <==> IsAmount(s, usd)
  {
    hide ParseDollars, IsWhole, IsDecimal;
    if ParseDollars(s) == Some(usd) {
      AmountIs(s, usd);
    }
    if IsAmount(s, usd) {
      if IsWhole(s, usd) {
        WholeReads(s, usd);
      } else {
        var whole, part :| IsDecimal(s, whole, part, usd);
        DecimalReads(s, whole, part, usd);
      }
    }
  }

  lemma ReasonExact(v: string)
    ensures (exists reason :: ReasonText(reason) && v == "n/a (" + reason + ")") <==>
      Between(v, NA_START, ")", 300).Some? && AllNa(Between(v, NA_START, ")", 300).value)
  {
    hide Between;
    if Between(v, NA_START, ")", 300).Some? {
      var reason := Between(v, NA_START, ")", 300).value;
      BetweenExact(v, NA_START, ")", 300, reason);
      ReasonChars(reason);
    }
    if reason :| ReasonText(reason) && v == "n/a (" + reason + ")" {
      BetweenExact(v, NA_START, ")", 300, reason);
      ReasonChars(reason);
    }
  }

  lemma ReasonChars(s: string)
    ensures AllNa(s) <==> forall c | c in s :: ' ' <= c <= '~' && c !in "*|"
  {
    assert forall i | 0 <= i < |s| :: s[i] in s;
  }

  lemma CountStarts(v: string, n: nat)
    requires IsCount(v, n)
    ensures v != "" && '0' <= v[0] <= '9'
  {
    var groups :| Spelled(v, groups, n) && |groups| <= 6;
    assert groups[0][0] in groups[0];
    assert v[0] == groups[0][0];
  }

  lemma AmountStarts(text: string, usd: real)
    requires IsAmount(text, usd)
    ensures text != "" && '0' <= text[0] <= '9'
  {
    if IsWhole(text, usd) {
      assert text[0] in text;
    } else {
      var whole, part :| IsDecimal(text, whole, part, usd);
      assert whole[0] in whole && text[0] == whole[0];
    }
  }

  lemma ReasonStarts(v: string, reason: string)
    requires v == "n/a (" + reason + ")"
    ensures v[0] == 'n'
  {}

  lemma DollarsExact(v: string, usd: real)
    ensures (exists text :: |text| <= 37 && v == text + " USD" && IsAmount(text, usd)) <==>
      Between(v, "", " USD", 37).Some? && ParseDollars(Between(v, "", " USD", 37).value) == Some(usd)
  {
    hide Between, ParseDollars, IsAmount;
    if Between(v, "", " USD", 37).Some? {
      var text := Between(v, "", " USD", 37).value;
      BetweenExact(v, "", " USD", 37, text);
      assert "" + text + " USD" == text + " USD";
      AmountExact(text, usd);
    }
    if text :| |text| <= 37 && v == text + " USD" && IsAmount(text, usd) {
      AmountStarts(text, usd);
      assert "" + text + " USD" == text + " USD";
      BetweenExact(v, "", " USD", 37, text);
      AmountExact(text, usd);
    }
  }

  lemma TextExact(tokens: bool, v: string, figure: Option<Figure>)
    ensures ParseText(tokens, v) == Some(figure) <==> ShowsText(tokens, v, figure)
  {
    hide Between, ParseGrouped, ParseDollars, IsCount, IsAmount, ReasonText, AllNa;
    ReasonExact(v);
    if figure.None? {
    } else if figure.value.Count? {
      CountExact(v, figure.value.n);
      if IsCount(v, figure.value.n) {
        CountStarts(v, figure.value.n);
        if reason :| ReasonText(reason) && v == "n/a (" + reason + ")" {
          ReasonStarts(v, reason);
        }
      }
    } else {
      DollarsExact(v, figure.value.usd);
      if text :| |text| <= 37 && v == text + " USD" && IsAmount(text, figure.value.usd) {
        AmountStarts(text, figure.value.usd);
        assert v[0] == text[0];
        if reason :| ReasonText(reason) && v == "n/a (" + reason + ")" {
          ReasonStarts(v, reason);
        }
      }
    }
  }

  /** A cell is read as the figure that it shows, in a column of tokens or of dollars. */
  lemma CellExact(tokens: bool, cell: string, figure: Option<Figure>)
    ensures ParseCell(tokens, cell) == Some(figure) <==> Shows(tokens, cell, figure)
  {
    hide Between, ParseText, ShowsText;
    if Between(cell, BOLD, BOLD, 400).Some? {
      var v := Between(cell, BOLD, BOLD, 400).value;
      BetweenExact(cell, BOLD, BOLD, 400, v);
      TextExact(tokens, v, figure);
    }
    if v :| 1 <= |v| <= 400 && cell == "**" + v + "**" && ShowsText(tokens, v, figure) {
      BetweenExact(cell, BOLD, BOLD, 400, v);
      TextExact(tokens, v, figure);
    }
  }

  // ----- the cells of a row

  lemma JoinFirst(part: string, rest: seq<string>)
    requires rest != []
    ensures Join([part] + rest, " | ") == part + " | " + Join(rest, " | ")
  {
    assert ([part] + rest)[1..] == rest;
  }

  lemma SplitStep(s: string, acc: string)
    requires s != ""
    ensures SplitCells(s, acc) ==
      if BAR <= s then [acc] + SplitCells(s[3..], "") else SplitCells(s[1..], acc + [s[0]])
    ensures if BAR <= s then s == " | " + s[3..] else s == [s[0]] + s[1..]
  {}

  lemma Regrouped(a: string, b: string, c: string)
    ensures a + b + c == a + (b + c) && "" + c == c && c + "" == c
  {}

  lemma {:induction false} SplitIsJoin(s: string, acc: string)
    ensures SplitCells(s, acc) != [] && Join(SplitCells(s, acc), " | ") == acc + s
    decreases |s|
  {
    if s == "" {
      Regrouped(s, s, acc);
      OneJoined(acc);
    } else {
      hide Join, SplitCells;
      SplitStep(s, acc);
      if BAR <= s {
        SplitIsJoin(s[3..], "");
        JoinFirst(acc, SplitCells(s[3..], ""));
        Regrouped(acc, " | ", s[3..]);
      } else {
        SplitIsJoin(s[1..], acc + [s[0]]);
        Regrouped(acc, [s[0]], s[1..]);
      }
    }
  }

  lemma OneJoined(part: string)
    ensures Join([part], " | ") == part
  {}

  lemma ReasonLacksBar(v: string, reason: string)
    requires ReasonText(reason) && v == "n/a (" + reason + ")"
    ensures Lacks(v, '|')
  {
    forall i | 0 <= i < |v| ensures v[i] != '|' {
      assert v[i] in "n/a (" || v[i] in reason || v[i] in ")";
    }
  }

  lemma {:induction false} GroupsLackBar(groups: seq<string>)
    requires groups != [] && forall i | 0 <= i < |groups| :: AllDigits(groups[i])
    ensures Lacks(Join(groups, ","), '|')
  {
    if |groups| > 1 {
      GroupsLackBar(groups[1..]);
    }
  }

  lemma AmountLacksBar(text: string, usd: real)
    requires IsAmount(text, usd)
    ensures Lacks(text, '|')
  {
    if !IsWhole(text, usd) {
      var whole, part :| IsDecimal(text, whole, part, usd);
      forall i | 0 <= i < |text| ensures text[i] != '|' {
        assert text[i] in whole || text[i] in "." || text[i] in part;
      }
    }
  }

  lemma ShownLacksBar(tokens: bool, cell: string, figure: Option<Figure>)
    requires Shows(tokens, cell, figure)
    ensures Lacks(cell, '|')
  {
    hide ReasonText, IsCount, IsAmount;
    var v :| 1 <= |v| <= 400 && cell == "**" + v + "**" && ShowsText(tokens, v, figure);
    if figure.None? {
      var reason :| ReasonText(reason) && v == "n/a (" + reason + ")";
      ReasonLacksBar(v, reason);
    } else if figure.value.Count? {
      CountLacksBar(v, figure.value.n);
    } else {
      var text :| |text| <= 37 && v == text + " USD" && IsAmount(text, figure.value.usd);
      AmountLacksBar(text, figure.value.usd);
    }
  }

  lemma CountLacksBar(v: string, n: nat)
    requires IsCount(v, n)
    ensures Lacks(v, '|')
  {
    var groups :| Spelled(v, groups, n) && |groups| <= 6;
    GroupsLackBar(groups);
  }

  /** The cells show the figures, token and dollar cells in turn. */
  ghost predicate ShowAll(tokens: bool, cells: seq<string>, figures: seq<Option<Figure>>) {
    |cells| == |figures| && forall i | 0 <= i < |cells| :: Shows((i % 2 == 0) == tokens, cells[i], figures[i])
  }

  lemma ShowStep(tokens: bool, cells: seq<string>, figures: seq<Option<Figure>>)
    requires cells != [] && figures != []
    ensures ShowAll(tokens, cells, figures) <==>
      Shows(tokens, cells[0], figures[0]) && ShowAll(!tokens, cells[1..], figures[1..])
  {
    hide Shows;
    var rest, more := cells[1..], figures[1..];
    if |cells| == |figures| {
      assert forall i | 0 <= i < |rest| :: rest[i] == cells[i + 1] && more[i] == figures[i + 1];
      if Shows(tokens, cells[0], figures[0]) && ShowAll(!tokens, rest, more) {
        forall i | 0 <= i < |cells| ensures Shows((i % 2 == 0) == tokens, cells[i], figures[i]) {
          if i > 0 {
            assert Shows(((i - 1) % 2 == 0) == !tokens, rest[i - 1], more[i - 1]);
          }
        }
      }
      if ShowAll(tokens, cells, figures) {
        forall i | 0 <= i < |rest| ensures Shows((i % 2 == 0) == !tokens, rest[i], more[i]) {
          assert Shows(((i + 1) % 2 == 0) == tokens, cells[i + 1], figures[i + 1]);
        }
      }
    }
  }

  lemma {:induction false} CellsExact(tokens: bool, cells: seq<string>, figures: seq<Option<Figure>>)
    ensures ParseCells(tokens, cells) == Some(figures) <==> ShowAll(tokens, cells, figures)
    decreases |cells|
  {
    hide ParseCell, Shows;
    if cells != [] {
      if figures != [] {
        CellExact(tokens, cells[0], figures[0]);
        CellsExact(!tokens, cells[1..], figures[1..]);
        ShowStep(tokens, cells, figures);
        assert [figures[0]] + figures[1..] == figures;
      }
    }
  }

  /** The total row's text: cells that show the figures, with bars between them. */
  ghost predicate IsRow(row: string, figures: seq<Option<Figure>>) {
    exists cells :: cells != [] && row == Join(cells, " | ") && ShowAll(true, cells, figures)
  }

  lemma RowExact(row: string, figures: seq<Option<Figure>>)
    ensures ParseCells(true, SplitCells(row, "")) == Some(figures) <==> IsRow(row, figures)
    ensures IsRow(row, figures) ==> |SplitCells(row, "")| == |figures|
  {
    hide ParseCells, Shows;
    SplitIsJoin(row, "");
    assert "" + row == row;
    CellsExact(true, SplitCells(row, ""), figures);
    if cells :| cells != [] && row == Join(cells, " | ") && ShowAll(true, cells, figures) {
      forall i | 0 <= i < |cells| ensures Lacks(cells[i], '|') {
        ShownLacksBar((i % 2 == 0) == true, cells[i], figures[i]);
      }
      SplitJoinedCells(cells);
      CellsExact(true, cells, figures);
    }
  }

  // ----- times and windows

  ghost predicate Just(s: string, n: nat) {
    |s| == n && forall c | c in s :: '0' <= c <= '9'
  }

  /** Year, month, day, hour, minute and second in their fixed format. */
  ghost predicate IsInstant(s: string, y: string, mo: string, d: string, h: string, mi: string, se: string) {
    && Just(y, 4) && Just(mo, 2) && Just(d, 2) && Just(h, 2) && Just(mi, 2) && Just(se, 2)
    && s == y + "-" + mo + "-" + d + "T" + (h + ":" + mi + ":" + se + "Z")
  }

  ghost predicate TimeText(s: string) {
    exists y, mo, d, h, mi, se :: IsInstant(s, y, mo, d, h, mi, se)
  }

  lemma JustDigits(s: string)
    ensures AllDigits(s) <==> forall c | c in s :: '0' <= c <= '9'
  {
    assert forall i | 0 <= i < |s| :: s[i] in s;
  }

  lemma InstantParts(s: string, y: string, mo: string, d: string, h: string, mi: string, se: string)
    requires IsInstant(s, y, mo, d, h, mi, se)
    ensures IsTime(s)
    ensures s[..4] == y && s[5..7] == mo && s[8..10] == d && s[11..13] == h && s[14..16] == mi && s[17..19] == se
  {
    JustDigits(y);
    JustDigits(mo);
    JustDigits(d);
    JustDigits(h);
    JustDigits(mi);
    JustDigits(se);
    assert s[..4] == y && s[5..7] == mo && s[8..10] == d && s[11..13] == h && s[14..16] == mi && s[17..19] == se;
  }

  lemma TimeParts(s: string)
    requires IsTime(s)
    ensures IsInstant(s, s[..4], s[5..7], s[8..10], s[11..13], s[14..16], s[17..19])
  {
    JustDigits(s[..4]);
    JustDigits(s[5..7]);
    JustDigits(s[8..10]);
    JustDigits(s[11..13]);
    JustDigits(s[14..16]);
    JustDigits(s[17..19]);
    assert s == s[..4] + [s[4]] + s[5..7] + [s[7]] + s[8..10] + [s[10]]
      + (s[11..13] + [s[13]] + s[14..16] + [s[16]] + s[17..19] + [s[19]]);
  }

  lemma TimeExact(s: string)
    ensures IsTime(s) <==> TimeText(s)
  {
    hide IsTime, IsInstant;
    if IsTime(s) {
      LengthOfTime(s);
      TimeParts(s);
    }
    if y, mo, d, h, mi, se :| IsInstant(s, y, mo, d, h, mi, se) {
      InstantParts(s, y, mo, d, h, mi, se);
    }
  }

  lemma LengthOfTime(s: string)
    requires IsTime(s)
    ensures |s| == 20
  {}

  /** A year with a 29th of February. */
  ghost predicate Leap(year: nat) {
    year % 4 == 0 && (year % 100 == 0 ==> year % 400 == 0)
  }

  ghost predicate DayOf(year: nat, month: nat, day: nat) {
    && year >= 1 && day >= 1
    && match month
       case 2 => day <= 28 || (day == 29 && Leap(year))
       case 4 => day <= 30
       case 6 => day <= 30
       case 9 => day <= 30
       case 11 => day <= 30
       case m => 1 <= m <= 12 && day <= 31
  }

  /** A time of the calendar. */
  ghost predicate RealTime(s: string) {
    && TimeText(s)
    && forall y, mo, d, h, mi, se | IsInstant(s, y, mo, d, h, mi, se)
         && AllDigits(y) && AllDigits(mo) && AllDigits(d) && AllDigits(h) && AllDigits(mi) && AllDigits(se) ::
         && DayOf(NumberValue(y), NumberValue(mo), NumberValue(d))
         && NumberValue(h) <= 23 && NumberValue(mi) <= 59 && NumberValue(se) <= 59
  }

  lemma DayExact(year: nat, month: nat, day: nat)
    ensures DayOf(year, month, day) <==> year >= 1 && 1 <= month <= 12 && 1 <= day <= DaysIn(year, month)
  {
  }

  lemma RealTimeExact(s: string)
    ensures ValidTime(s) <==> RealTime(s)
  {
    hide IsTime, IsInstant, DayOf, DaysIn, NumberValue;
    TimeExact(s);
    if IsTime(s) {
      LengthOfTime(s);
      TimeParts(s);
      DigitsOfTime(s);
      DayExact(NumberValue(s[..4]), NumberValue(s[5..7]), NumberValue(s[8..10]));
      forall y, mo, d, h, mi, se | IsInstant(s, y, mo, d, h, mi, se)
        ensures y == s[..4] && mo == s[5..7] && d == s[8..10] && h == s[11..13] && mi == s[14..16] && se == s[17..19]
      {
        InstantParts(s, y, mo, d, h, mi, se);
      }
    }
  }

  lemma DigitsOfTime(s: string)
    requires IsTime(s)
    ensures AllDigits(s[..4]) && AllDigits(s[5..7]) && AllDigits(s[8..10])
    ensures AllDigits(s[11..13]) && AllDigits(s[14..16]) && AllDigits(s[17..19])
  {}

  /** Printable ASCII but `|`. */
  ghost predicate EndReason(s: string) {
    1 <= |s| <= 300 && forall c | c in s :: ' ' <= c <= '~' && c != '|'
  }

  ghost predicate EndLine(line: string, w: Stated, end: string, tail: string) {
    TimeText(end) && line == "- Window end: " + end + ". " + tail && w == Stated(None, Some(end))
  }

  /** The line states the end of record 1's window, or why it has none. */
  ghost predicate FirstWindow(line: string, w: Stated) {
    || (exists end, tail :: EndLine(line, w, end, tail))
    || (exists reason, tail ::
          EndReason(reason) && line == "- Window end: n/a (" + reason + "). " + tail && w == Stated(None, None))
  }

  /** The line states a follow-up's window. */
  ghost predicate LaterWindow(line: string, w: Stated) {
    exists start, end, tail ::
      && TimeText(start) && TimeText(end) && w == Stated(Some(start), Some(end))
      && line == "- Window: " + start + " to " + end + ". " + tail
  }

  ghost predicate IsWindow(first: bool, line: string, w: Stated) {
    if first then FirstWindow(line, w) else LaterWindow(line, w)
  }

  lemma EndReads(end: string, tail: string)
    requires TimeText(end)
    ensures WindowOf(true, "- Window end: " + end + ". " + tail) == Some(Stated(None, Some(end)))
  {
    hide IsTime;
    TimeExact(end);
    LengthOfTime(end);
    var line := "- Window end: " + end + ". " + tail;
    assert END_START <= line;
    assert line[|END_START|..] == end + (". " + tail);
    assert (end + (". " + tail))[..20] == end && (end + (". " + tail))[20..] == ". " + tail;
    assert STOP <= ". " + tail;
  }

  lemma NoTimeInReason(s: string)
    requires NA_START <= s
    ensures |s| >= 20 ==> !IsTime(s[..20])
  {
    assert s[0] == 'n';
  }

  lemma EndReasonReads(reason: string, tail: string)
    requires EndReason(reason)
    ensures WindowOf(true, "- Window end: n/a (" + reason + "). " + tail) == Some(Stated(None, None))
  {
    hide IsTime;
    var line := "- Window end: n/a (" + reason + "). " + tail;
    var s := NA_START + reason + ")" + (". " + tail);
    assert END_START <= line && line[|END_START|..] == s;
    assert NA_START <= s;
    NoTimeInReason(s);
    forall i | |NA_START| <= i < |NA_START| + |reason| ensures ' ' <= s[i] <= '~' && s[i] != '|' {
      assert s[i] == reason[i - |NA_START|] && reason[i - |NA_START|] in reason;
    }
    assert s[|NA_START| + |reason|] == ')';
    assert s[|NA_START| + |reason| + 1..] == ". " + tail;
    assert NaStopsAt(s, |reason|);
  }

  lemma EndIs(s: string)
    requires |s| >= 20 && IsTime(s[..20]) && StopsAfter(s, 20)
    ensures TimeText(s[..20]) && s == s[..20] + ". " + s[22..]
  {
    hide IsTime, TimeText;
    TimeExact(s[..20]);
    assert s[20..][..2] == STOP;
    assert s == s[..20] + s[20..][..2] + s[22..];
  }

  lemma EndReasonIs(s: string, j: nat) returns (reason: string, tail: string)
    requires NA_START <= s && 1 <= j <= 300 && NaStopsAt(s, j)
    ensures EndReason(reason) && s == "n/a (" + reason + "). " + tail
  {
    var n := |NA_START|;
    reason, tail := s[n..n + j], s[n + j + 3..];
    assert s[n + j + 1..][..2] == STOP;
    assert s == s[..n] + reason + [s[n + j]] + s[n + j + 1..][..2] + tail;
    assert s == NA_START + reason + (")" + ". ") + tail;
    forall c | c in reason ensures ' ' <= c <= '~' && c != '|' {
      var i :| 0 <= i < |reason| && reason[i] == c;
      assert s[n + i] == c;
    }
  }

  lemma FirstWindowIs(line: string, w: Stated)
    requires WindowOf(true, line) == Some(w)
    ensures FirstWindow(line, w)
  {
    hide IsTime, TimeText, EndReason, StopsAfter, NaStopsAt;
    var s := line[|END_START|..];
    assert line == "- Window end: " + s;
    if |s| >= 20 && IsTime(s[..20]) && StopsAfter(s, 20) {
      EndIs(s);
      assert line == "- Window end: " + s[..20] + ". " + s[22..];
      assert EndLine(line, w, s[..20], s[22..]);
    } else {
      var j: nat :| 1 <= j <= 300 && NaStopsAt(s, j);
      var reason, tail := EndReasonIs(s, j);
      assert line == "- Window end: n/a (" + reason + "). " + tail;
    }
  }

  lemma SpanReads(start: string, end: string, tail: string)
    requires TimeText(start) && TimeText(end)
    ensures WindowOf(false, "- Window: " + start + " to " + end + ". " + tail) == Some(Stated(Some(start), Some(end)))
  {
    hide IsTime;
    TimeExact(start);
    TimeExact(end);
    LengthOfTime(start);
    LengthOfTime(end);
    var line := "- Window: " + start + " to " + end + ". " + tail;
    var s := start + " to " + end + ". " + tail;
    assert SPAN_START <= line && line[|SPAN_START|..] == s;
    assert s[..20] == start && s[20..24] == " to " && s[24..44] == end && s[44..] == ". " + tail;
    assert STOP <= ". " + tail;
  }

  lemma LaterWindowIs(line: string, w: Stated)
    requires WindowOf(false, line) == Some(w)
    ensures LaterWindow(line, w)
  {
    hide IsTime, TimeText;
    var s := line[|SPAN_START|..];
    assert line == "- Window: " + s;
    TimeExact(s[..20]);
    TimeExact(s[24..44]);
    var tail := s[46..];
    assert s[44..][..2] == STOP;
    assert s == s[..20] + s[20..24] + s[24..44] + s[44..][..2] + tail;
    assert line == "- Window: " + s[..20] + " to " + s[24..44] + ". " + tail;
  }

  /** A window line is read as the times that it states. */
  lemma WindowExact(first: bool, line: string, w: Stated)
    ensures WindowOf(first, line) == Some(w) <==> IsWindow(first, line, w)
  {
    hide WindowOf, TimeText, EndReason;
    if WindowOf(first, line) == Some(w) {
      if first {
        FirstWindowIs(line, w);
      } else {
        LaterWindowIs(line, w);
      }
    }
    if IsWindow(first, line, w) {
      if !first {
        var start, end, tail :|
          TimeText(start) && TimeText(end) && w == Stated(Some(start), Some(end))
          && line == "- Window: " + start + " to " + end + ". " + tail;
        SpanReads(start, end, tail);
      } else if end, tail :| EndLine(line, w, end, tail) {
        EndReads(end, tail);
      } else {
        var reason, tail :| EndReason(reason) && line == "- Window end: n/a (" + reason + "). " + tail;
        EndReasonReads(reason, tail);
      }
    }
  }

  // ----- the lines of a note

  /** A line without the carriage returns at its end. */
  ghost predicate Cut(raw: string, line: string) {
    && (line != "" ==> line[|line| - 1] != '\r')
    && exists crs :: (forall c | c in crs :: c == '\r') && raw == line + crs
  }

  lemma {:induction false} CutOf(s: string) returns (crs: string)
    ensures (forall c | c in crs :: c == '\r') && s == StripCr(s) + crs
    ensures StripCr(s) != "" ==> StripCr(s)[|StripCr(s)| - 1] != '\r'
    decreases |s|
  {
    if s != "" && s[|s| - 1] == '\r' {
      var rest := CutOf(s[..|s| - 1]);
      crs := rest + ['\r'];
      assert s == s[..|s| - 1] + ['\r'];
      assert StripCr(s) + crs == (StripCr(s) + rest) + ['\r'];
    } else {
      crs := "";
      assert s + "" == s;
    }
  }

  lemma {:induction false} CutIs(line: string, crs: string)
    requires line != "" ==> line[|line| - 1] != '\r'
    requires forall c | c in crs :: c == '\r'
    ensures StripCr(line + crs) == line
    decreases |crs|
  {
    if crs == "" {
      assert line + crs == line;
    } else {
      var init := crs[..|crs| - 1];
      assert forall c | c in init :: c in crs;
      assert crs[|crs| - 1] in crs;
      assert (line + crs)[..|line + crs| - 1] == line + init;
      CutIs(line, init);
    }
  }

  lemma CutExact(raw: string, line: string)
    ensures StripCr(raw) == line <==> Cut(raw, line)
  {
    hide StripCr;
    if StripCr(raw) == line {
      var crs := CutOf(raw);
    }
    if Cut(raw, line) {
      var crs :| (forall c | c in crs :: c == '\r') && raw == line + crs;
      CutIs(line, crs);
    }
  }

  lemma {:induction false} CutAll(raws: seq<string>, i: nat)
    requires i < |raws|
    ensures StripCrs(raws)[i] == StripCr(raws[i])
  {
    if i > 0 {
      CutAll(raws[1..], i - 1);
    }
  }

  /** The lines of a text: it is split at its line feeds. */
  ghost predicate AreLines(body: string, lines: seq<string>) {
    exists raws :: RawLines(body, raws) && |raws| == |lines| && forall i | 0 <= i < |raws| :: Cut(raws[i], lines[i])
  }

  ghost predicate RawLines(body: string, raws: seq<string>) {
    raws != [] && body == Join(raws, "\n") && forall i | 0 <= i < |raws| :: '\n' !in raws[i]
  }

  lemma OneRaw(line: string)
    requires '\n' !in line
    ensures RawLines(line, [line])
  {}

  lemma MoreRaws(line: string, text: string, raws: seq<string>)
    requires '\n' !in line && RawLines(text, raws)
    ensures RawLines(line + "\n" + text, [line] + raws)
  {
    var all := [line] + raws;
    assert all[1..] == raws;
    forall i | 0 <= i < |all| ensures '\n' !in all[i] {
      assert i > 0 ==> all[i] == raws[i - 1];
    }
  }

  lemma {:induction false} SplitLinesJoin(s: string, acc: string)
    requires '\n' !in acc
    ensures RawLines(acc + s, SplitLines(s, acc))
    decreases |s|
  {
    hide RawLines;
    if s == "" {
      assert acc + s == acc;
      OneRaw(acc);
    } else {
      assert s == [s[0]] + s[1..];
      if s[0] == '\n' {
        SplitLinesJoin(s[1..], "");
        MoreRaws(acc, "" + s[1..], SplitLines(s[1..], ""));
        assert acc + "\n" + ("" + s[1..]) == acc + s;
      } else {
        SplitLinesJoin(s[1..], acc + [s[0]]);
        assert acc + [s[0]] + s[1..] == acc + s;
      }
    }
  }

  lemma RawLinesExact(body: string, raws: seq<string>)
    ensures SplitLines(body, "") == raws <==> RawLines(body, raws)
  {
    SplitLinesJoin(body, "");
    assert "" + body == body;
    if RawLines(body, raws) {
      forall i | 0 <= i < |raws| ensures Lacks(raws[i], '\n') {}
      SplitJoinedLines(raws);
    }
  }

  lemma LinesExact(body: string, lines: seq<string>)
    ensures StripCrs(SplitLines(body, "")) == lines <==> AreLines(body, lines)
  {
    hide Cut, SplitLines, RawLines;
    var raws := SplitLines(body, "");
    RawLinesExact(body, raws);
    forall i | 0 <= i < |raws| ensures Cut(raws[i], StripCrs(raws)[i]) {
      CutAll(raws, i);
      CutExact(raws[i], StripCr(raws[i]));
    }
    if other :| RawLines(body, other) && |other| == |lines| && forall i | 0 <= i < |other| :: Cut(other[i], lines[i]) {
      RawLinesExact(body, other);
      forall i | 0 <= i < |raws| ensures StripCrs(raws)[i] == lines[i] {
        CutAll(raws, i);
        CutExact(raws[i], lines[i]);
      }
      assert StripCrs(raws) == lines;
    }
  }

  /** Line `n` is the last that is not blank. */
  ghost predicate LastLine(lines: seq<string>, n: nat) {
    n < |lines| && lines[n] != "" && forall i | n < i < |lines| :: lines[i] == ""
  }

  lemma {:induction false} TailExact(lines: seq<string>, n: nat)
    requires LastLine(lines, n)
    ensures DropBlankTail(lines) == lines[..n + 1]
    decreases |lines|
  {
    if n == |lines| - 1 {
      assert lines[..n + 1] == lines;
    } else {
      var init := lines[..|lines| - 1];
      TailExact(init, n);
      assert init[..n + 1] == lines[..n + 1];
    }
  }

  lemma {:induction false} LastExists(lines: seq<string>) returns (n: nat)
    requires lines != [] && lines[0] != ""
    ensures LastLine(lines, n)
    decreases |lines|
  {
    n := |lines| - 1;
    if lines[n] == "" {
      var init := lines[..n];
      var m := LastExists(init);
      assert LastLine(lines, m);
      n := m;
    }
  }

  /** Of the lines, just one is read, and as `v`. */
  ghost predicate OneReads<T(!new)>(lines: seq<string>, f: string -> Option<T>, v: T) {
    exists i ::
      0 <= i < |lines| && f(lines[i]) == Some(v) && forall j | 0 <= j < |lines| && j != i :: f(lines[j]) == None
  }

  lemma {:induction false} NoneCollected<T>(lines: seq<string>, f: string -> Option<T>)
    ensures Collect(lines, f) == [] <==> forall i | 0 <= i < |lines| :: f(lines[i]) == None
  {
    if lines != [] {
      NoneCollected(lines[1..], f);
      assert forall i | 0 <= i < |lines[1..]| :: lines[1..][i] == lines[i + 1];
      assert forall i | 0 < i < |lines| :: lines[i] == lines[1..][i - 1];
    }
  }

  lemma OneElement<T>(x: T, rest: seq<T>, v: T)
    ensures [x] + rest == [v] <==> x == v && rest == []
  {
    assert |[x] + rest| == 1 + |rest|;
    assert ([x] + rest)[0] == x;
  }

  lemma OneReadsFirst<T(!new)>(lines: seq<string>, f: string -> Option<T>, v: T)
    requires lines != [] && f(lines[0]).Some?
    ensures OneReads(lines, f, v) <==>
      f(lines[0]) == Some(v) && forall i | 0 <= i < |lines[1..]| :: f(lines[1..][i]) == None
  {
    var rest := lines[1..];
    assert forall i | 0 <= i < |rest| :: rest[i] == lines[i + 1];
    assert forall i | 0 < i < |lines| :: lines[i] == rest[i - 1];
  }

  lemma OneReadsLater<T(!new)>(lines: seq<string>, f: string -> Option<T>, v: T)
    requires lines != [] && f(lines[0]).None?
    ensures OneReads(lines, f, v) <==> OneReads(lines[1..], f, v)
  {
    var rest := lines[1..];
    assert forall i | 0 <= i < |rest| :: rest[i] == lines[i + 1];
    assert forall i | 0 < i < |lines| :: lines[i] == rest[i - 1];
    if i :| 0 <= i < |lines| && f(lines[i]) == Some(v) && forall j | 0 <= j < |lines| && j != i :: f(lines[j]) == None {
      assert f(rest[i - 1]) == Some(v);
    }
    if i :| 0 <= i < |rest| && f(rest[i]) == Some(v) && forall j | 0 <= j < |rest| && j != i :: f(rest[j]) == None {
      assert f(lines[i + 1]) == Some(v);
    }
  }

  lemma {:induction false} OneCollected<T(!new)>(lines: seq<string>, f: string -> Option<T>, v: T)
    ensures Collect(lines, f) == [v] <==> OneReads(lines, f, v)
  {
    if lines != [] {
      hide OneReads;
      var rest := lines[1..];
      if f(lines[0]).Some? {
        NoneCollected(rest, f);
        OneElement(f(lines[0]).value, Collect(rest, f), v);
        OneReadsFirst(lines, f, v);
      } else {
        OneCollected(rest, f, v);
        OneReadsLater(lines, f, v);
        assert Collect(lines, f) == Collect(rest, f);
      }
    }
  }

  // ----- whole notes

  ghost predicate FooterLine(line: string, k: nat) {
    if k == 1 then
      line == "_Generated by `scripts/" + ("cost-table.py --comment` from " + ("the " +
        (("`## Gates` ledger lines and the " + "per-model split; ") + "never typed by hand._")))
    else
      line == "_Generated by `scripts/" + ("cost-table.py --comment` from " + ("the " +
        (("measuring scripts' lines for " + ("this window and the per-model " + "split; ")) + "never typed by hand._")))
  }

  lemma TwoPieces(a: string, b: string)
    ensures Concat([a, b]) == a + b
  {
    assert [a, b][1..] == [b] && [b][1..] == [];
    assert Concat([b]) == b + Concat([]);
  }

  lemma ThreePieces(a: string, b: string, c: string)
    ensures Concat([a, b, c]) == a + (b + c)
  {
    assert [a, b, c][1..] == [b, c];
    TwoPieces(b, c);
  }

  lemma FooterExact(line: string, k: nat)
    ensures line == Footer(k) <==> FooterLine(line, k)
  {
    hide Concat;
    TwoPieces("`## Gates` ledger lines and the ", "per-model split; ");
    ThreePieces("measuring scripts' lines for ", "this window and the per-model ", "split; ");
  }

  /** Of the lines, just one is of the kind, and with `v` in it. */
  ghost predicate Only<T(!new)>(lines: seq<string>, kind: (string, T) -> bool, v: T) {
    exists i :: 0 <= i < |lines| && kind(lines[i], v)
      && forall j, w | 0 <= j < |lines| && j != i :: !kind(lines[j], w)
  }

  lemma NotOfKind<T(!new)>(f: string -> Option<T>, kind: (string, T) -> bool, line: string)
    requires forall w :: f(line) == Some(w) <==> kind(line, w)
    ensures f(line) == None <==> forall w :: !kind(line, w)
  {
    if f(line).Some? {
      assert kind(line, f(line).value);
    }
  }

  lemma OnlyExact<T(!new)>(lines: seq<string>, f: string -> Option<T>, kind: (string, T) -> bool, v: T)
    requires forall line, w :: f(line) == Some(w) <==> kind(line, w)
    ensures Collect(lines, f) == [v] <==> Only(lines, kind, v)
  {
    OneCollected(lines, f, v);
    if i :| 0 <= i < |lines| && f(lines[i]) == Some(v) && forall j | 0 <= j < |lines| && j != i :: f(lines[j]) == None {
      assert kind(lines[i], v);
      forall j, w | 0 <= j < |lines| && j != i ensures !kind(lines[j], w) {
        NotOfKind(f, kind, lines[j]);
      }
    }
    if Only(lines, kind, v) {
      var i :| 0 <= i < |lines| && kind(lines[i], v) && forall j, w | 0 <= j < |lines| && j != i :: !kind(lines[j], w);
      forall j | 0 <= j < |lines| && j != i ensures f(lines[j]) == None {
        NotOfKind(f, kind, lines[j]);
      }
    }
  }

  ghost predicate OneHeader(lines: seq<string>, pairs: seq<(Family, Family)>) {
    Only(lines, (line: string, ps: seq<(Family, Family)>) => IsHeader(line, ps), pairs)
  }

  ghost predicate OneTotal(lines: seq<string>, row: string) {
    Only(lines, (line: string, r: string) => IsTotal(line, r), row)
  }

  ghost predicate OneWindow(lines: seq<string>, first: bool, w: Stated) {
    Only(lines, (line: string, v: Stated) => IsWindow(first, line, v), w)
  }

  lemma KindsExact(lines: seq<string>, first: bool)
    ensures forall pairs :: Collect(lines, HeaderOf) == [pairs] <==> OneHeader(lines, pairs)
    ensures forall row :: Collect(lines, TotalOf) == [row] <==> OneTotal(lines, row)
    ensures forall w :: Collect(lines, WindowReader(first)) == [w] <==> OneWindow(lines, first, w)
  {
    hide HeaderOf, TotalOf, WindowOf, IsHeader, IsTotal, IsWindow, Collect, Only;
    forall line, ps ensures HeaderOf(line) == Some(ps) <==> IsHeader(line, ps) {
      HeaderExact(line, ps);
    }
    forall line, r ensures TotalOf(line) == Some(r) <==> IsTotal(line, r) {
      TotalExact(line, r);
    }
    forall line, w ensures WindowReader(first)(line) == Some(w) <==> IsWindow(first, line, w) {
      WindowExact(first, line, w);
    }
    forall pairs ensures Collect(lines, HeaderOf) == [pairs] <==> OneHeader(lines, pairs) {
      OnlyExact(lines, HeaderOf, (line: string, ps: seq<(Family, Family)>) => IsHeader(line, ps), pairs);
    }
    forall row ensures Collect(lines, TotalOf) == [row] <==> OneTotal(lines, row) {
      OnlyExact(lines, TotalOf, (line: string, r: string) => IsTotal(line, r), row);
    }
    forall w ensures Collect(lines, WindowReader(first)) == [w] <==> OneWindow(lines, first, w) {
      OnlyExact(lines, WindowReader(first), (line: string, v: Stated) => IsWindow(first, line, v), w);
    }
  }

  ghost function Expected(other: bool): seq<(Family, Family)> {
    [(Sonnet, Sonnet), (Opus, Opus)] + if other then [(Other, Other)] else []
  }

  /** The times are of the calendar, and those of a follow-up in order. */
  ghost predicate TimesOk(k: nat, w: Stated) {
    && (w.end.Some? ==> RealTime(w.end.value))
    && (k > 1 ==>
          w.start.Some? && RealTime(w.start.value) && w.end.Some? && NameOrder.Leq(w.start.value, w.end.value))
  }

  /** What the table and the window say. */
  ghost predicate TableSays(pairs: seq<(Family, Family)>, row: string, w: Stated, p: Parsed) {
    && pairs == Expected(p.other) && IsRow(row, p.figures) && |p.figures| == (if p.other then 8 else 6)
    && TimesOk(p.k, w) && p.start == w.start && p.end == w.end
  }

  lemma TableExact(k: nat, pairs: seq<(Family, Family)>, row: string, w: Stated, p: Parsed)
    ensures ParseTable(k, pairs, row, w) == Some(p) <==> p.k == k && TableSays(pairs, row, w, p)
  {
    hide ParseCells, SplitCells, IsRow, ValidTime, RealTime, NameOrder.Leq;
    var two, three := [(Sonnet, Sonnet), (Opus, Opus)], [(Sonnet, Sonnet), (Opus, Opus), (Other, Other)];
    assert Expected(false) == two && Expected(true) == three;
    assert |two| == 2 && |three| == 3;
    RowExact(row, p.figures);
    var cells := SplitCells(row, "");
    if ParseCells(true, cells).Some? {
      RowExact(row, ParseCells(true, cells).value);
    }
    if w.end.Some? {
      RealTimeExact(w.end.value);
    }
    if w.start.Some? {
      RealTimeExact(w.start.value);
    }
  }

  /** One header, one total row and one window line are among the lines. */
  ghost predicate HasParts(lines: seq<string>, k: nat, pairs: seq<(Family, Family)>, row: string, w: Stated) {
    OneHeader(lines, pairs) && OneTotal(lines, row) && OneWindow(lines, k == 1, w)
  }

  /** The lines up to line `n` are a record that says `p`: a heading, one header, one total row, one
      window line and at the end the footer, among any other lines of ASCII. */
  ghost predicate LinesSay(lines: seq<string>, n: nat, p: Parsed)
    requires n < |lines|
  {
    && FooterLine(lines[n], p.k)
    && (forall i | 0 < i <= n :: forall c | c in lines[i] :: c as int < 128)
    && exists pairs, row, w ::
         HasParts(lines[..n + 1], p.k, pairs, row, w) && TableSays(pairs, row, w, p)
  }

  lemma AsciiExact(lines: seq<string>, n: nat)
    requires n < |lines|
    ensures Ascii(lines[..n + 1][1..]) <==> forall i | 0 < i <= n :: forall c | c in lines[i] :: c as int < 128
  {
    var rest := lines[..n + 1][1..];
    assert forall i | 0 <= i < |rest| :: rest[i] == lines[i + 1];
    if Ascii(rest) {
      forall i | 0 < i <= n ensures forall c | c in lines[i] :: c as int < 128 {
        assert rest[i - 1] == lines[i];
      }
    }
    if forall i | 0 < i <= n :: forall c | c in lines[i] :: c as int < 128 {
      forall i, j | 0 <= i < |rest| && 0 <= j < |rest[i]| ensures rest[i][j] < 128 as char {
        assert rest[i][j] in lines[i + 1];
      }
    }
  }

  /** What the three collected lines are parsed to. */
  ghost function TableRead(k: nat, kept: seq<string>): Option<Parsed> {
    var headers, totals := Collect(kept, HeaderOf), Collect(kept, TotalOf);
    var windows := Collect(kept, WindowReader(k == 1));
    if |headers| != 1 || |totals| != 1 || |windows| != 1 then None
    else ParseTable(k, headers[0], totals[0], windows[0])
  }

  lemma Singles(k: nat, kept: seq<string>, pairs: seq<(Family, Family)>, row: string, w: Stated)
    ensures HasParts(kept, k, pairs, row, w) <==>
      && Collect(kept, HeaderOf) == [pairs] && Collect(kept, TotalOf) == [row]
      && Collect(kept, WindowReader(k == 1)) == [w]
  {
    hide Collect, OneHeader, OneTotal, OneWindow;
    KindsExact(kept, k == 1);
  }

  lemma PartsExact(k: nat, kept: seq<string>, p: Parsed)
    ensures TableRead(k, kept) == Some(p) <==>
      p.k == k && exists pairs, row, w :: HasParts(kept, k, pairs, row, w) && TableSays(pairs, row, w, p)
  {
    hide Collect, ParseTable, TableSays, HasParts;
    if TableRead(k, kept) == Some(p) {
      var headers, totals := Collect(kept, HeaderOf), Collect(kept, TotalOf);
      var windows := Collect(kept, WindowReader(k == 1));
      assert headers == [headers[0]] && totals == [totals[0]] && windows == [windows[0]];
      Singles(k, kept, headers[0], totals[0], windows[0]);
      TableExact(k, headers[0], totals[0], windows[0], p);
    }
    if p.k == k {
      if pairs, row, w :| HasParts(kept, k, pairs, row, w) && TableSays(pairs, row, w, p) {
        Singles(k, kept, pairs, row, w);
        TableExact(k, pairs, row, w, p);
      }
    }
  }

  lemma ParsedLines(k: nat, kept: seq<string>)
    requires kept != []
    ensures ParseLines(k, kept) ==
      if kept[|kept| - 1] != Footer(k) || !Ascii(kept[1..]) then None else TableRead(k, kept)
  {
    hide Collect, ParseTable, Footer, Ascii;
  }

  lemma KeptExact(k: nat, lines: seq<string>, n: nat, p: Parsed)
    requires n < |lines|
    ensures ParseLines(k, lines[..n + 1]) == Some(p) <==> p.k == k && LinesSay(lines, n, p)
  {
    hide ParseLines, TableRead, TableSays, HasParts, FooterLine, Footer, Ascii;
    var kept := lines[..n + 1];
    FooterExact(lines[n], k);
    AsciiExact(lines, n);
    PartsExact(k, kept, p);
    ParsedLines(k, kept);
    assert kept[|kept| - 1] == lines[n];
  }

  /** The note is a record that says `p`. */
  ghost predicate NoteSays(body: string, lines: seq<string>, n: nat, p: Parsed) {
    && AreLines(body, lines) && LastLine(lines, n)
    && IsHeading(lines[0], p.k) && p.k >= 1 && (p.k == 1 ==> '\U{2014}' !in lines[0])
    && LinesSay(lines, n, p)
  }

  lemma HeadingText(line: string, k: nat)
    requires IsHeading(line, k)
    ensures line != ""
  {}

  /** The strict parser, exactly: a note is read as `p` if and only if it has at most 32768
      characters and its lines say `p`. */
  lemma ParseExact(body: string, p: Parsed)
    ensures ParseRecord(body) == Some(p) <==> |body| <= 32768 && exists lines, n: nat :: NoteSays(body, lines, n, p)
  {
    hide SplitLines, HeadNumber, IsHeading, AreLines, LastLine, LinesSay, DropBlankTail, ParseLines;
    var lines := StripCrs(SplitLines(body, ""));
    LinesExact(body, lines);
    var k := HeadNumber(lines[0]);
    if k.Some? {
      HeadingExact(lines[0], k.value);
      HeadingText(lines[0], k.value);
      var n := LastExists(lines);
      TailExact(lines, n);
      InLines(lines, n);
      KeptExact(k.value, lines, n, p);
      if ParseRecord(body) == Some(p) {
        assert NoteSays(body, lines, n, p);
      }
    }
    if others, m: nat :| NoteSays(body, others, m, p) {
      LinesExact(body, others);
      HeadingExact(lines[0], p.k);
      TailExact(lines, m);
      InLines(lines, m);
      KeptExact(p.k, lines, m, p);
    }
  }

  lemma InLines(lines: seq<string>, n: nat)
    requires LastLine(lines, n)
    ensures n < |lines| && lines[..n + 1] != []
  {}

  // ----- the printed lines

  /** A line that the parser passes over, as it is printed. */
  ghost predicate IsProse(p: Prose, line: string) {
    match p
    case Blank => |line| == 0
    case Rule(tail) => line == "|---|" + tail
    case SubagentRow(tail) => line == "| Subagents | " + tail
    case OrchestratorRow(tail) => line == "| Orchestrator | " + tail
    case RunningRow(tail) => line == "| **Running total, records 1-" + tail
    case FigureBullet(tail) => line == "- The " + tail
    case CostBullet(tail) => line == "- Costs are estimates " + tail
    case GapBullet(tail) => line == "- No record covers " + tail
    case RunningBullet(tail) => line == "- Running total: " + tail
    case ForeignBullet(notes, tail) => line == "- " + Decimal(notes) + " note(s) " + tail
    case BudgetBullet(tail) => line == "- Agents over " + tail
  }

  lemma {:induction false} ProseExact(ps: seq<Prose>)
    ensures |ProseLines(ps)| == |ps| && forall i | 0 <= i < |ps| :: IsProse(ps[i], ProseLines(ps)[i])
  {
    if ps != [] {
      ProseExact(ps[1..]);
      OneProse(ps[0]);
      assert forall i | 0 < i < |ps| :: ps[i] == ps[1..][i - 1] && ProseLines(ps)[i] == ProseLines(ps[1..])[i - 1];
    }
  }

  lemma OneProse(p: Prose)
    ensures IsProse(p, ProseLine(p))
  {}

  ghost predicate AllProseAt(lines: seq<string>, at: nat, ps: seq<Prose>) {
    at + |ps| <= |lines| && forall i | 0 <= i < |ps| :: IsProse(ps[i], lines[at + i])
  }

  /** The lines of a rendered note: the heading; the header row of its families; the total row; the
      window line; the footer at the end; and in between the other lines of its layout, in order. */
  lemma PrintExact(r: Record, lay: Layout)
    requires r.cells != []
    ensures var lines := Lines(r, lay);
      var header := 1 + |lay.afterHeading|;
      var total := header + 1 + |lay.afterHeader|;
      var window := total + 1 + |lay.afterTotal|;
      var footer := window + 1 + |lay.afterWindow|;
      && |lines| == footer + 1 && lines[0] == Heading(r)
      && AllProseAt(lines, 1, lay.afterHeading) && IsHeader(lines[header], Expected(r.other))
      && AllProseAt(lines, header + 1, lay.afterHeader) && lines[total] == TotalRow(r.cells)
      && AllProseAt(lines, total + 1, lay.afterTotal) && lines[window] == WindowLine(r.window, lay.tail)
      && AllProseAt(lines, window + 1, lay.afterWindow) && FooterLine(lines[footer], r.k)
  {
    hide IsProse, ProseLines, HeaderRow, TotalRow, WindowLine, Heading, FooterLine, IsHeader, AllProseAt, Footer;
    hide Lines;
    var lines := Lines(r, lay);
    PrintedPlaces(r, lay);
    HeaderPrinted(r.other);
    FooterExact(Footer(r.k), r.k);
    var header := 1 + |lay.afterHeading|;
    var total := header + 1 + |lay.afterHeader|;
    var window := total + 1 + |lay.afterTotal|;
    SliceProse(lines, 1, lay.afterHeading);
    SliceProse(lines, header + 1, lay.afterHeader);
    SliceProse(lines, total + 1, lay.afterTotal);
    SliceProse(lines, window + 1, lay.afterWindow);
  }

  lemma PrintedPlaces(r: Record, lay: Layout)
    requires r.cells != []
    ensures var lines := Lines(r, lay);
      var header := 1 + |lay.afterHeading|;
      var total := header + 1 + |lay.afterHeader|;
      var window := total + 1 + |lay.afterTotal|;
      var footer := window + 1 + |lay.afterWindow|;
      && |lines| == footer + 1 && lines[0] == Heading(r) && lines[header] == HeaderRow(r.other)
      && lines[total] == TotalRow(r.cells) && lines[window] == WindowLine(r.window, lay.tail)
      && lines[footer] == Footer(r.k)
      && lines[1..header] == ProseLines(lay.afterHeading) && lines[header + 1..total] == ProseLines(lay.afterHeader)
      && lines[total + 1..window] == ProseLines(lay.afterTotal)
      && lines[window + 1..footer] == ProseLines(lay.afterWindow)
  {
    hide IsProse, ProseLines, HeaderRow, TotalRow, WindowLine, Heading, Footer, Lines;
    ProseExact(lay.afterHeading);
    ProseExact(lay.afterHeader);
    ProseExact(lay.afterTotal);
    ProseExact(lay.afterWindow);
    LinesNested(r, lay);
    Places(Lines(r, lay), Heading(r), ProseLines(lay.afterHeading), HeaderRow(r.other), ProseLines(lay.afterHeader),
           TotalRow(r.cells), ProseLines(lay.afterTotal), WindowLine(r.window, lay.tail),
           ProseLines(lay.afterWindow), Footer(r.k));
  }

  lemma LinesNested(r: Record, lay: Layout)
    requires r.cells != []
    ensures Lines(r, lay) == [Heading(r)] + (ProseLines(lay.afterHeading) + ([HeaderRow(r.other)]
      + (ProseLines(lay.afterHeader) + ([TotalRow(r.cells)] + (ProseLines(lay.afterTotal)
      + ([WindowLine(r.window, lay.tail)] + (ProseLines(lay.afterWindow) + [Footer(r.k)])))))))
  {
    hide ProseLines, HeaderRow, TotalRow, WindowLine, Heading, Footer;
  }

  /** Where the parts of a list of lines are. */
  lemma Places(lines: seq<string>, h: string, a: seq<string>, w: string, b: seq<string>, t: string, c: seq<string>,
        x: string, d: seq<string>, f: string)
    requires lines == [h] + (a + ([w] + (b + ([t] + (c + ([x] + (d + [f])))))))
    ensures var i := 1 + |a|;
      var j := i + 1 + |b|;
      var k := j + 1 + |c|;
      var n := k + 1 + |d|;
      && |lines| == n + 1 && lines[0] == h && lines[i] == w && lines[j] == t && lines[k] == x && lines[n] == f
      && lines[1..i] == a && lines[i + 1..j] == b && lines[j + 1..k] == c && lines[k + 1..n] == d
  {
  }

  lemma SliceProse(lines: seq<string>, at: nat, ps: seq<Prose>)
    requires at + |ps| <= |lines| && lines[at..at + |ps|] == ProseLines(ps)
    ensures AllProseAt(lines, at, ps)
  {
    hide IsProse, ProseLines;
    ProseExact(ps);
    assert forall i | 0 <= i < |ps| :: lines[at + i] == ProseLines(ps)[i];
  }

  ghost function Paired(fams: seq<Family>): seq<(Family, Family)> {
    if fams == [] then [] else [(fams[0], fams[0])] + Paired(fams[1..])
  }

  lemma ColumnsStep(f: Family, rest: string)
    ensures FamilyColumns(f) + rest == Word(f) + " tokens | " + ((Word(f) + " est. cost | ") + rest)
  {
    hide FamilyName, Word;
    WordIsName(f);
    assert FamilyColumns(f) == Word(f) + " tokens | " + (Word(f) + " est. cost | ");
    var a, b := Word(f) + " tokens | ", Word(f) + " est. cost | ";
    assert a + b + rest == a + (b + rest);
  }

  lemma {:induction false} ColumnsAre(fams: seq<Family>)
    ensures Columns(fams) == PairsText(Paired(fams)) + HEADER_END
  {
    if fams == [] {
      NoPairs(HEADER_END);
    } else {
      ColumnsAre(fams[1..]);
      var pairs := Paired(fams);
      assert pairs[0] == (fams[0], fams[0]) && pairs[1..] == Paired(fams[1..]);
      hide FamilyColumns, PairsText, Word, FamilyName;
      ColumnsStep(fams[0], Columns(fams[1..]));
      PairsStep(pairs, HEADER_END);
    }
  }

  lemma HeaderPrinted(other: bool)
    ensures IsHeader(HeaderRow(other), Expected(other))
  {
    hide PairsText, Columns;
    ColumnsAre(Families(other));
    assert Paired([Sonnet, Opus]) == [(Sonnet, Sonnet), (Opus, Opus)] by {
      PairedTwo();
    }
    if other {
      PairedThree();
    }
    assert Paired(Families(other)) == Expected(other);
    assert HeaderRow(other) == "| | " + (PairsText(Expected(other)) + HEADER_END);
  }

  lemma PairedTwo()
    ensures Paired([Sonnet, Opus]) == [(Sonnet, Sonnet), (Opus, Opus)]
  {
    assert [Sonnet, Opus][1..] == [Opus] && [Opus][1..] == [];
    assert Paired([Opus]) == [(Opus, Opus)];
  }

  lemma PairedThree()
    ensures Paired([Sonnet, Opus, Other]) == [(Sonnet, Sonnet), (Opus, Opus), (Other, Other)]
  {
    assert [Sonnet, Opus, Other][1..] == [Opus, Other] && [Opus, Other][1..] == [Other] && [Other][1..] == [];
    assert Paired([Other]) == [(Other, Other)];
    assert Paired([Opus, Other]) == [(Opus, Opus), (Other, Other)];
  }
}
