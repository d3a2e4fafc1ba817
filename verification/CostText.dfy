/** Numbers and separators as `scripts/cost-table.py` prints them and as its strict parser reads
    them back. */
module CostText {
  import opened Common

  predicate IsDigit(c: char) { '0' <= c <= '9' }

  predicate AllDigits(s: string) { forall i | 0 <= i < |s| :: IsDigit(s[i]) }

  /** Printable ASCII, which is what every line after the heading is made of. */
  predicate Printable(s: string) { forall i | 0 <= i < |s| :: ' ' <= s[i] <= '~' }

  function DigitChar(d: nat): char
    requires d < 10
  {
    '0' + d as char
  }

  function DigitValue(c: char): nat
    requires IsDigit(c)
  {
    (c - '0') as nat
  }

  function Pow(base: nat, e: nat): nat {
    if e == 0 then 1 else base * Pow(base, e - 1)
  }

  // ----- plain decimal numbers

  function Decimal(n: nat): (s: string)
    ensures s != "" && AllDigits(s)
  {
    if n < 10 then [DigitChar(n)] else Decimal(n / 10) + [DigitChar(n % 10)]
  }

  function NumberValue(s: string): nat
    requires AllDigits(s)
  {
    if s == "" then 0 else 10 * NumberValue(s[..|s| - 1]) + DigitValue(s[|s| - 1])
  }

  /** `[0-9]{1,max}` followed by `int()`. */
  function ParseNumber(s: string, max: nat): Option<nat> {
    if s != "" && |s| <= max && AllDigits(s) then Some(NumberValue(s)) else None
  }

  lemma {:induction false} DecimalValue(n: nat)
    ensures NumberValue(Decimal(n)) == n
  {
    if n >= 10 {
      DecimalValue(n / 10);
      assert Decimal(n)[..|Decimal(n)| - 1] == Decimal(n / 10);
    }
  }

  lemma {:induction false} DecimalLength(n: nat, max: nat)
    requires max >= 1
    ensures |Decimal(n)| <= max <==> n < Pow(10, max)
  {
    if n >= 10 && max > 1 {
      DecimalLength(n / 10, max - 1);
      assert Pow(10, max) == 10 * Pow(10, max - 1);
    } else if max > 1 {
      PowPositive(10, max - 2);
      assert Pow(10, max) == 10 * (10 * Pow(10, max - 2));
    } else {
      assert Pow(10, 1) == 10 * Pow(10, 0);
    }
  }

  lemma {:induction false} PowPositive(base: nat, e: nat)
    requires base >= 1
    ensures Pow(base, e) >= 1
  {
    if e > 0 {
      PowPositive(base, e - 1);
    }
  }

  /** A number survives printing and bounded parsing exactly when it has few enough digits. */
  lemma NumberRoundTrip(n: nat, max: nat)
    requires max >= 1
    ensures ParseNumber(Decimal(n), max) == if n < Pow(10, max) then Some(n) else None
  {
    DecimalValue(n);
    DecimalLength(n, max);
  }

  // ----- thousands separators

  function Three(n: nat): (s: string)
    requires n < 1000
    ensures |s| == 3 && AllDigits(s)
  {
    [DigitChar(n / 100), DigitChar(n / 10 % 10), DigitChar(n % 10)]
  }

  /** Python's `{:,}`. */
  function Grouped(n: nat): (s: string)
    ensures s != ""
  {
    if n < 1000 then Decimal(n) else Grouped(n / 1000) + "," + Three(n % 1000)
  }

  /** `[0-9]{1,3}(,[0-9]{3}){0,groups}` followed by dropping the commas and `int()`. */
  function ParseGrouped(s: string, groups: nat): Option<nat> {
    if |s| > 4 && s[|s| - 4] == ',' then
      var tail := ParseNumber(s[|s| - 3..], 3);
      if groups == 0 || tail.None? then None
      else
        var head := ParseGrouped(s[..|s| - 4], groups - 1);
        if head.None? then None else Some(1000 * head.value + tail.value)
    else ParseNumber(s, 3)
  }

  lemma ThreeValue(n: nat)
    requires n < 1000
    ensures ParseNumber(Three(n), 3) == Some(n)
  {
    var s := Three(n);
    assert s[..2] == [s[0], s[1]] && s[..2][..1] == [s[0]] && s[..2][..1][..0] == "";
    assert NumberValue(s[..2][..1]) == n / 100;
    assert NumberValue(s[..2]) == n / 10;
  }

  lemma {:induction false} GroupedPrintable(n: nat)
    ensures forall i | 0 <= i < |Grouped(n)| :: IsDigit(Grouped(n)[i]) || Grouped(n)[i] == ','
  {
    if n >= 1000 {
      GroupedPrintable(n / 1000);
    }
  }

  lemma GroupBound(n: nat, bound: nat)
    ensures n / 1000 < bound <==> n < 1000 * bound
  {
  }

  lemma Regroup(n: nat)
    ensures 1000 * (n / 1000) + n % 1000 == n
  {
  }

  lemma OneGroup(n: nat, groups: nat)
    requires n < 1000
    ensures ParseGrouped(Decimal(n), groups) == Some(n)
  {
    hide NumberValue;
    assert Pow(10, 3) == 10 * (10 * (10 * Pow(10, 0))) by {
      assert Pow(10, 3) == 10 * Pow(10, 2) && Pow(10, 2) == 10 * Pow(10, 1);
    }
    hide Decimal;
    DecimalLength(n, 3);
    NumberRoundTrip(n, 3);
  }

  /** Reading a last group of three digits off its head. */
  lemma LastGroup(head: string, last: nat, groups: nat)
    requires head != "" && last < 1000
    ensures var rest := if groups == 0 then None else ParseGrouped(head, groups - 1);
      ParseGrouped(head + "," + Three(last), groups) == if rest.None? then None else Some(1000 * rest.value + last)
  {
    var s := head + "," + Three(last);
    ThreeValue(last);
    hide Three, ParseNumber;
    assert s[|s| - 4] == ',' && s[|s| - 3..] == Three(last) && s[..|s| - 4] == head;
  }

  /** A grouped number survives printing and parsing exactly when it has few enough groups. */
  lemma {:induction false} GroupedRoundTrip(n: nat, groups: nat)
    ensures ParseGrouped(Grouped(n), groups) == if n < Pow(1000, groups + 1) then Some(n) else None
  {
    hide ParseGrouped, Three, Decimal;
    assert Pow(1000, groups + 1) == 1000 * Pow(1000, groups);
    PowPositive(1000, groups);
    if n < 1000 {
      OneGroup(n, groups);
    } else {
      LastGroup(Grouped(n / 1000), n % 1000, groups);
      GroupBound(n, Pow(1000, groups));
      Regroup(n);
      if groups > 0 {
        GroupedRoundTrip(n / 1000, groups - 1);
      }
    }
  }

  // ----- amounts in dollars

  /** A `Decimal` quantized to cents. */
  function CentsText(cents: nat): string {
    Decimal(cents / 100) + "." + [DigitChar(cents / 10 % 10), DigitChar(cents % 10)]
  }

  /** The position of the first `c`, or the length. */
  function Index(s: string, c: char): (k: nat)
    ensures k <= |s|
    ensures forall i | 0 <= i < k :: s[i] != c
    ensures k < |s| ==> s[k] == c
  {
    if s == "" || s[0] == c then 0 else 1 + Index(s[1..], c)
  }

  /** `[0-9]{1,18}(\.[0-9]{1,18})?` followed by `Decimal()`. */
  function ParseDollars(s: string): Option<real> {
    var k := Index(s, '.');
    var whole := ParseNumber(s[..k], 18);
    if whole.None? then None
    else if k == |s| then Some(whole.value as real)
    else
      var part := ParseNumber(s[k + 1..], 18);
      if part.None? then None
      else
        PowPositive(10, |s| - k - 1);
        Some(whole.value as real + part.value as real / Pow(10, |s| - k - 1) as real)
  }

  lemma IndexAt(a: string, c: char, b: string)
    requires Lacks(a, c)
    ensures Index(a + [c] + b, c) == |a|
  {
    var s := a + [c] + b;
    assert s[|a|] == c;
    assert forall i | 0 <= i < |a| :: s[i] == a[i];
  }

  lemma TwoDigits(n: nat)
    requires n < 100
    ensures ParseNumber([DigitChar(n / 10), DigitChar(n % 10)], 18) == Some(n)
  {
    var b := [DigitChar(n / 10), DigitChar(n % 10)];
    assert b[..1] == [b[0]] && b[..1][..0] == "";
    assert NumberValue(b[..1]) == n / 10;
  }

  lemma WholeAndCents(cents: nat)
    ensures (cents / 100) as real + (cents % 100) as real / 100.0 == cents as real / 100.0
  {
    var whole, part := cents / 100, cents % 100;
    assert cents == 100 * whole + part;
    assert cents as real == 100.0 * whole as real + part as real;
  }

  lemma LastDigit(high: nat, low: nat)
    requires low < 10
    ensures (10 * high + low) / 10 == high && (10 * high + low) % 10 == low
  {
  }

  lemma LastTwoDigits(cents: nat)
    ensures cents % 100 / 10 == cents / 10 % 10 && cents % 100 % 10 == cents % 10
  {
    var high, tens, ones := cents / 100, cents % 100 / 10, cents % 100 % 10;
    assert cents == 10 * (10 * high + tens) + ones;
    LastDigit(10 * high + tens, ones);
    LastDigit(high, tens);
  }

  lemma DividedBy(x: real, hundred: real)
    requires hundred == 100.0
    ensures x / hundred == x / 100.0
  {
    var q := x / hundred;
    assert q * hundred == x;
    assert q * 100.0 == x;
  }

  lemma TwoDecimals(a: string, b: string)
    requires AllDigits(a) && |b| == 2 && ParseNumber(b, 18).Some?
    ensures var whole := ParseNumber(a, 18);
      ParseDollars(a + "." + b)
      == if whole.None? then None else Some(whole.value as real + ParseNumber(b, 18).value as real / 100.0)
  {
    hide ParseNumber;
    var s := a + "." + b;
    IndexAt(a, '.', b);
    assert "." == ['.'];
    assert Index(s, '.') == |a| && s[..|a|] == a && s[|a| + 1..] == b;
    assert Pow(10, 2) == 100 by { assert Pow(10, 2) == 10 * Pow(10, 1) && Pow(10, 1) == 10 * Pow(10, 0); }
    assert |s| - |a| - 1 == 2;
    DividedBy(ParseNumber(b, 18).value as real, Pow(10, |s| - |a| - 1) as real);
  }

  /** An amount in cents survives printing and parsing exactly when its dollars have at most
      eighteen digits. */
  lemma CentsRoundTrip(cents: nat)
    ensures ParseDollars(CentsText(cents)) == if cents / 100 < Pow(10, 18) then Some(cents as real / 100.0) else None
  {
    hide ParseDollars, ParseNumber, Decimal, DigitChar, Pow;
    NumberRoundTrip(cents / 100, 18);
    TwoDigits(cents % 100);
    WholeAndCents(cents);
    LastTwoDigits(cents);
    TwoDecimals(Decimal(cents / 100), [DigitChar(cents / 10 % 10), DigitChar(cents % 10)]);
  }

  // ----- joining and splitting

  function Join(parts: seq<string>, sep: string): string
    requires parts != []
  {
    if |parts| == 1 then parts[0] else parts[0] + sep + Join(parts[1..], sep)
  }

  predicate Lacks(s: string, c: char) { forall i | 0 <= i < |s| :: s[i] != c }

  /** `str.split("\n")`. */
  function SplitLines(s: string, acc: string): (r: seq<string>)
    ensures r != []
  {
    if s == "" then [acc]
    else if s[0] == '\n' then [acc] + SplitLines(s[1..], "")
    else SplitLines(s[1..], acc + [s[0]])
  }

  lemma {:induction false} SplitOneLine(a: string, rest: string, acc: string)
    requires Lacks(a, '\n')
    ensures SplitLines(a + "\n" + rest, acc) == [acc + a] + SplitLines(rest, "")
    ensures SplitLines(a, acc) == [acc + a]
  {
    if a == "" {
      assert (a + "\n" + rest)[1..] == rest && acc + a == acc;
    } else {
      assert (a + "\n" + rest)[1..] == a[1..] + "\n" + rest;
      SplitOneLine(a[1..], rest, acc + [a[0]]);
      assert acc + [a[0]] + a[1..] == acc + a;
    }
  }

  lemma {:induction false} SplitJoinedLines(lines: seq<string>)
    requires lines != [] && forall i | 0 <= i < |lines| :: Lacks(lines[i], '\n')
    ensures SplitLines(Join(lines, "\n"), "") == lines
  {
    if |lines| == 1 {
      SplitOneLine(lines[0], "", "");
      assert "" + lines[0] == lines[0] && lines == [lines[0]];
    } else {
      SplitOneLine(lines[0], Join(lines[1..], "\n"), "");
      assert "" + lines[0] == lines[0] && lines == [lines[0]] + lines[1..];
      SplitJoinedLines(lines[1..]);
    }
  }

  const BAR := " | "

  /** `str.split(" | ")`. */
  function SplitCells(s: string, acc: string): seq<string> {
    if s == "" then [acc]
    else if BAR <= s then [acc] + SplitCells(s[3..], "")
    else SplitCells(s[1..], acc + [s[0]])
  }

  lemma {:induction false} SplitOneCell(a: string, rest: string, acc: string)
    requires Lacks(a, '|')
    ensures SplitCells(a + BAR + rest, acc) == [acc + a] + SplitCells(rest, "")
    ensures SplitCells(a, acc) == [acc + a]
  {
    if a == "" {
      assert (a + BAR + rest)[3..] == rest && acc + a == acc;
      assert a + BAR + rest == BAR + rest;
    } else {
      var s := a + BAR + rest;
      assert s[1] == if |a| > 1 then a[1] else ' ';
      assert BAR[1] == '|';
      assert s[1..] == a[1..] + BAR + rest;
      SplitOneCell(a[1..], rest, acc + [a[0]]);
      assert acc + [a[0]] + a[1..] == acc + a;
    }
  }

  lemma {:induction false} SplitJoinedCells(cells: seq<string>)
    requires cells != [] && forall i | 0 <= i < |cells| :: Lacks(cells[i], '|')
    ensures SplitCells(Join(cells, BAR), "") == cells
  {
    if |cells| == 1 {
      SplitOneCell(cells[0], "", "");
      assert "" + cells[0] == cells[0] && cells == [cells[0]];
    } else {
      SplitOneCell(cells[0], Join(cells[1..], BAR), "");
      assert "" + cells[0] == cells[0] && cells == [cells[0]] + cells[1..];
      SplitJoinedCells(cells[1..]);
    }
  }
}
